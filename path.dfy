/** path.cpp: splitting a temporary-file name pattern around its last '*'. */
module Path {
  import opened Wrappers
  import opened StdString
  import PathPosix

  /** prefix_and_suffix: a pattern holding the path separator is refused with
      ArgumentError; otherwise it is cut around its last '*', or kept whole as
      the prefix when it has none. */
  function PrefixAndSuffix(pattern: string): (r: Result<(string, string)>)
    ensures r.Err? <==> PathPosix.PathSep in pattern
    ensures r.Err? ==> r.error == ArgumentError
    ensures r.Ok? && '*' in pattern ==> r.value.0 + "*" + r.value.1 == pattern && '*' !in r.value.1
    ensures r.Ok? && '*' !in pattern ==> r.value == (pattern, "")
    ensures r.Ok? ==> PathPosix.PathSep !in r.value.0 + r.value.1
  {
    if PathPosix.PathSep in pattern then Err(ArgumentError)
    else
      var pos := RFind(pattern, '*');
      if pos >= 0 then
        var prefix, suffix := pattern[..pos], pattern[pos + 1..];
        assert prefix + "*" + suffix == pattern;
        assert forall j :: 0 <= j < |suffix| ==> suffix[j] == pattern[pos + 1 + j];
        Ok((prefix, suffix))
      else
        Ok((pattern, ""))
  }
}
