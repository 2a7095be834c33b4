/**
 * The query handling of the `/download` route (server.js) that decides what
 * a job is: the `format` value, the `dl` and `play` flags, and the checks
 * done before a download starts. Query values are single strings here; a
 * missing parameter is `None`.
 */
module Requests {
  import opened Wrappers
  import opened Layout

  /** `dl` or `play`: set, and neither `''`, `'0'` nor `'false'`. */
  predicate WantFlag(v: Option<string>) {
    Truthy(v) && v.value != "0" && v.value != "false"
  }

  /** `toLowerCase` on one character, for the ASCII letters. */
  function LowerChar(c: char): char {
    if 'A' <= c <= 'Z' then (c as int - 'A' as int + 'a' as int) as char else c
  }

  /** `toLowerCase` for text whose letters are ASCII. */
  function LowerAscii(s: string): (r: string)
    ensures |r| == |s|
    ensures forall i :: 0 <= i < |s| ==> r[i] == LowerChar(s[i])
    decreases |s|
  {
    if |s| == 0 then "" else [LowerChar(s[0])] + LowerAscii(s[1..])
  }

  /** `(query.format || 'mp4').toLowerCase()`. */
  function FormatParam(format: Option<string>): string {
    LowerAscii(if Truthy(format) then format.value else "mp4")
  }

  /** `['mp3', 'mp4'].includes(formatParam)`. */
  predicate FormatAccepted(f: string) {
    f == "mp3" || f == "mp4"
  }

  /** What the route does before starting a job. */
  datatype Admission =
    | Rejected(error: string)                    // answered with status 400
    | Admitted(videoUrl: string, format: string) // a download starts

  /** The format is checked first, then the `url` parameter. */
  function Admit(url: Option<string>, format: Option<string>): (r: Admission)
    ensures r.Admitted? <==> FormatAccepted(FormatParam(format)) && Truthy(url)
    ensures r.Admitted? ==> r.videoUrl == url.value && r.format == FormatParam(format)
    ensures !FormatAccepted(FormatParam(format)) ==> r == Rejected("format harus mp3 atau mp4")
  {
    var formatParam := FormatParam(format);
    if !FormatAccepted(formatParam) then Rejected("format harus mp3 atau mp4")
    else if !Truthy(url) then Rejected("query param \"url\" wajib diisi")
    else Admitted(url.value, formatParam)
  }

  /** Without a `format` parameter (or with an empty one) the job is a video
      job; `MP3`, `Mp3`, ... select audio like `mp3`. */
  lemma FormatParamCases(format: Option<string>)
    ensures !Truthy(format) ==> FormatParam(format) == "mp4"
    ensures Truthy(format) && |format.value| == 3 &&
            LowerChar(format.value[0]) == 'm' && LowerChar(format.value[1]) == 'p' && format.value[2] == '3'
            ==> FormatParam(format) == "mp3"
  {
  }

  /** The format a job receives is always one of the two accepted values. */
  lemma AdmittedFormat(url: Option<string>, format: Option<string>)
    requires Admit(url, format).Admitted?
    ensures Admit(url, format).format == "mp3" || Admit(url, format).format == "mp4"
  {
  }

  /** The query values that leave a flag off when the parameter is present. */
  const FlagOffValues: set<string> := {"", "0", "false"}

  /** A flag is on exactly when the parameter is present with a value other
      than the empty one, `0` and `false`; the comparison is case-sensitive. */
  lemma WantFlagOn(v: Option<string>)
    ensures WantFlag(v) ==> v.Some? && v.value !in FlagOffValues
    ensures v.Some? && v.value !in FlagOffValues ==> WantFlag(v)
  {
  }

  /** Values a client may send: `1`, `true` and even `FALSE` turn a flag on. */
  lemma WantFlagExamples()
    ensures !WantFlag(None) && !WantFlag(Some("")) && !WantFlag(Some("0")) && !WantFlag(Some("false"))
    ensures WantFlag(Some("1")) && WantFlag(Some("true")) && WantFlag(Some("FALSE"))
  {
  }
}
