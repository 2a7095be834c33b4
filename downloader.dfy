/**
 * `downloadVideo` (server.js): the directory a job writes into, the
 * argument list yt-dlp is started with, and what the job reports when the
 * process closes. Starting the process and collecting its output are not
 * modelled; the collected standard output is an input.
 */
module Downloader {
  import opened Wrappers
  import opened Text
  import opened Layout
  import opened ArtifactLocator

  /** `format === 'mp3'`: the job extracts audio. */
  predicate IsAudio(format: string) {
    format == "mp3"
  }

  /** yt-dlp's output template, placed in the target directory. */
  const OutputTemplate := "%(id)s.%(ext)s"

  /** The flags appended for an audio job. */
  const AudioFlags := ["--extract-audio", "--audio-format", "mp3", "--audio-quality", "0"]

  /** The flags appended for a video job. */
  const VideoFlags := ["-f", "mp4"]

  /** `process.env.FFMPEG_PATH || process.platform === 'win32'`: yt-dlp is
      told where ffmpeg is. */
  predicate PassesFfmpegLocation(host: Host) {
    Truthy(host.ffmpegPathEnv) || host.platform == Windows
  }

  /** The target directory and the argument list of one job. */
  method DownloadArgs(host: Host, videoUrl: string, format: string)
    returns (targetDir: string, args: seq<string>)
    ensures targetDir == (if IsAudio(format) then AudioDir(host) else VideoDir(host))
    ensures |args| == 5 + (if PassesFfmpegLocation(host) then 2 else 0) + (if IsAudio(format) then 5 else 2)
    ensures args[..5] == [videoUrl, "-o", JoinPath(host.platform, targetDir, OutputTemplate),
                          "--cookies-from-browser", "brave"]
    ensures PassesFfmpegLocation(host) ==> args[5..7] == ["--ffmpeg-location", FfmpegExecutable(host)]
    ensures IsAudio(format) ==> args[|args| - 5..] == AudioFlags
    ensures !IsAudio(format) ==> args[|args| - 2..] == VideoFlags
  {
    var isAudio := format == "mp3";
    targetDir := if isAudio then AudioDir(host) else VideoDir(host);
    var outputTemplate := JoinPath(host.platform, targetDir, OutputTemplate);
    var ffmpegArgs: seq<string> := [];
    if Truthy(host.ffmpegPathEnv) || host.platform == Windows {
      ffmpegArgs := ffmpegArgs + ["--ffmpeg-location", FfmpegExecutable(host)];
    }
    args := [videoUrl, "-o", outputTemplate, "--cookies-from-browser", "brave"] + ffmpegArgs;
    if isAudio {
      args := args + AudioFlags;
    } else {
      args := args + VideoFlags;
    }
  }

  /** The audio and video directories are distinct, so audio and video
      jobs never write into the same directory. */
  lemma TargetDirsDiffer(host: Host)
    ensures AudioDir(host) != VideoDir(host)
  {
    var a, v := AudioDir(host), VideoDir(host);
    assert a[|a| - 1] == 'o' && v[|v| - 1] == 'o';
    assert a[|a| - 5] == 'a' && v[|v| - 5] == 'v';
  }

  /** What the close handler passes to the callback. */
  datatype Outcome = Outcome(
    exitCode: Option<int>,    // `null` when the process was killed by a signal
    stdout: string,
    stderr: string,
    filePath: Option<string>,
    targetDir: string)

  /** `extractFilePath(stdout) || null`: an empty path is falsy and becomes `null`. */
  function OrNull(p: Option<string>): Option<string> {
    if p == Some("") then None else p
  }

  /** The process closed with `code` after printing `stdout` and `stderr`. */
  method OnClose(code: Option<int>, stdout: string, stderr: string, targetDir: string)
    returns (outcome: Outcome)
    ensures outcome == Outcome(code, stdout, stderr, OrNull(ExtractedPath(stdout)), targetDir)
    ensures outcome.filePath.Some? ==> outcome.filePath.value != ""
  {
    var extracted := ExtractFilePath(stdout);
    var filePath := if extracted == Some("") then None else extracted;
    outcome := Outcome(code, stdout, stderr, filePath, targetDir);
  }

  /** The reported path is `null` exactly when no line of the output matches
      or the last matching line's capture is only white space. */
  lemma ReportedPathAbsent(stdout: string)
    ensures OrNull(ExtractedPath(stdout)).None? ==>
            (forall i :: 0 <= i < |Lines(stdout)| ==> LineCapture(Lines(stdout)[i]).None?) ||
            (exists i: nat :: IsLastMatch(Lines(stdout), i) && Trim(LineCapture(Lines(stdout)[i]).value) == "")
    ensures (forall i :: 0 <= i < |Lines(stdout)| ==> LineCapture(Lines(stdout)[i]).None?) ||
            (exists i: nat :: IsLastMatch(Lines(stdout), i) && Trim(LineCapture(Lines(stdout)[i]).value) == "")
            ==> OrNull(ExtractedPath(stdout)).None?
  {
    ReportedAbsentIn(Lines(stdout));
  }

  lemma ReportedAbsentIn(lines: seq<string>)
    ensures OrNull(LastCapture(lines)).None? ==>
            (forall i :: 0 <= i < |lines| ==> LineCapture(lines[i]).None?) ||
            (exists i: nat :: IsLastMatch(lines, i) && Trim(LineCapture(lines[i]).value) == "")
    ensures (forall i :: 0 <= i < |lines| ==> LineCapture(lines[i]).None?) ||
            (exists i: nat :: IsLastMatch(lines, i) && Trim(LineCapture(lines[i]).value) == "")
            ==> OrNull(LastCapture(lines)).None?
  {
    LastCaptureMeaning(lines);
    if exists i: nat :: IsLastMatch(lines, i) && Trim(LineCapture(lines[i]).value) == "" {
      var i: nat :| IsLastMatch(lines, i) && Trim(LineCapture(lines[i]).value) == "";
      LastCaptureIsLastMatch(lines, i);
    }
  }
}
