/** The string test the fetch classifier uses. */
module Strings {

  /** JavaScript's `s.endsWith(suffix)`: `s` is something followed by `suffix`. */
  predicate EndsWith(s: string, suffix: string)
    ensures EndsWith(s, suffix) <==> exists p :: s == p + suffix
  {
    var r := |suffix| <= |s| && s[|s| - |suffix|..] == suffix;
    assert r ==> s == s[..|s| - |suffix|] + suffix;
    assert (exists p :: s == p + suffix) ==> r by {
      if p :| s == p + suffix {
        assert s[|s| - |suffix|..] == suffix;
      }
    }
    r
  }
}
