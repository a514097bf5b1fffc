/** `utils/str/trim.go`: trimming every string of a list and dropping the
    empty ones. */
module StrTrim {
  import Text

  /** `TrimSpaceOfStrings`: every element trimmed in place, so the length
      is kept. */
  function TrimSpaceOfStrings(s: seq<string>): (r: seq<string>)
    ensures |r| == |s|
    ensures forall i :: 0 <= i < |s| ==> r[i] == Text.TrimSpace(s[i])
  {
    seq(|s|, i requires 0 <= i < |s| => Text.TrimSpace(s[i]))
  }

  /** Trimming a trimmed list changes nothing. */
  lemma TrimSpaceOfStringsIdempotent(s: seq<string>)
    ensures TrimSpaceOfStrings(TrimSpaceOfStrings(s)) == TrimSpaceOfStrings(s)
  {
    forall i | 0 <= i < |s|
      ensures Text.TrimSpace(Text.TrimSpace(s[i])) == Text.TrimSpace(s[i])
    {
      Text.TrimSpaceIdempotent(s[i]);
    }
  }

  /** `NotEmpties`: the non-empty strings in order; the input slice itself
      when nothing was removed. */
  function NotEmpties(s: seq<string>): (r: seq<string>)
    ensures |r| <= |s|
    ensures forall i :: 0 <= i < |r| ==> r[i] != ""
    ensures forall x :: x in r <==> x in s && x != ""
  {
    var kept := Text.DropEmpty(s);
    if |kept| == |s| then
      Text.DropEmptySameLength(s);
      s
    else kept
  }

  /** Returning the input unchanged is the same as filtering it, so the
      shortcut is invisible to callers. */
  lemma NotEmptiesIsFilter(s: seq<string>)
    ensures NotEmpties(s) == Text.DropEmpty(s)
  {
  }

  /** The input comes back unchanged exactly when it has no empty string. */
  lemma NotEmptiesUnchanged(s: seq<string>)
    ensures NotEmpties(s) == s <==> "" !in s
  {
    NotEmptiesIsFilter(s);
    if "" !in s {
      Text.DropEmptyKeeps(s);
    }
  }

  /** Filtering keeps order: it distributes over concatenation. */
  lemma NotEmptiesAppend(a: seq<string>, b: seq<string>)
    ensures NotEmpties(a + b) == NotEmpties(a) + NotEmpties(b)
  {
    NotEmptiesIsFilter(a + b);
    NotEmptiesIsFilter(a);
    NotEmptiesIsFilter(b);
    Text.DropEmptyAppend(a, b);
  }
}
