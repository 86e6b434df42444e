/** Strings as C sees them, which end at the first null. */
module CStrings {
  function UpToNull(s: string): (t: string)
    ensures t <= s && '\0' !in t && (|t| < |s| ==> s[|t|] == '\0')
  {
    if s == [] || s[0] == '\0' then [] else [s[0]] + UpToNull(s[1..])
  }

  lemma {:induction false} NullNext(s: string, t: string)
    requires s <= t && '\0' !in s && (|t| > |s| ==> t[|s|] == '\0')
    ensures UpToNull(t) == s
  {
    if s != [] {
      assert s[0] in s && t[0] == s[0];
      NullNext(s[1..], t[1..]);
    }
  }
}
