/**
 * Where the server keeps its downloads and which executables it runs:
 * the module-level constants of server.js, over an explicit host
 * description instead of `process.platform`, `process.env` and `__dirname`.
 */
module Layout {
  import opened Wrappers

  /** `process.platform === 'win32'` or any other platform. */
  datatype Platform = Windows | Posix

  /** The host the server runs on: its platform, the directory holding
      server.js, and the YTDLP_PATH and FFMPEG_PATH environment variables. */
  datatype Host = Host(
    platform: Platform,
    appDir: string,
    ytdlpPathEnv: Option<string>,
    ffmpegPathEnv: Option<string>)

  /** A JavaScript string value used as a condition: unset and `''` are falsy. */
  predicate Truthy(v: Option<string>) {
    v.Some? && v.value != ""
  }

  function Separator(platform: Platform): char {
    if platform == Windows then '\\' else '/'
  }

  /** `path.join(dir, name)` for a plain file name. */
  function JoinPath(platform: Platform, dir: string, name: string): string {
    dir + [Separator(platform)] + name
  }

  function DownloadsDir(host: Host): string {
    JoinPath(host.platform, host.appDir, "downloads")
  }

  function VideoDir(host: Host): string {
    JoinPath(host.platform, DownloadsDir(host), "video")
  }

  function AudioDir(host: Host): string {
    JoinPath(host.platform, DownloadsDir(host), "audio")
  }

  /** `YTDLP`: the environment override when truthy, else the platform default. */
  function YtDlpExecutable(host: Host): string {
    if Truthy(host.ytdlpPathEnv) then host.ytdlpPathEnv.value
    else if host.platform == Windows then "e:\\AICODING\\ytdl\\yt-dlp.exe"
    else "yt-dlp"
  }

  /** `FFMPEG`: the environment override when truthy, else the platform default. */
  function FfmpegExecutable(host: Host): string {
    if Truthy(host.ffmpegPathEnv) then host.ffmpegPathEnv.value
    else if host.platform == Windows then "e:\\AICODING\\ytdl\\ffmpeg\\bin\\ffmpeg.exe"
    else "ffmpeg"
  }

  /** The `||` fallbacks never leave a tool unnamed: an empty environment
      value is passed over for the platform default. */
  lemma ExecutablesAreNamed(host: Host)
    ensures YtDlpExecutable(host) != "" && FfmpegExecutable(host) != ""
    ensures Truthy(host.ytdlpPathEnv) ==> YtDlpExecutable(host) == host.ytdlpPathEnv.value
    ensures Truthy(host.ffmpegPathEnv) ==> FfmpegExecutable(host) == host.ffmpegPathEnv.value
  {
  }

  /** The video and audio directories lie inside the downloads directory,
      which lies inside the application directory. */
  lemma MediaDirsInsideDownloads(host: Host)
    ensures host.appDir < DownloadsDir(host)
    ensures DownloadsDir(host) < VideoDir(host) && DownloadsDir(host) < AudioDir(host)
  {
  }
}
