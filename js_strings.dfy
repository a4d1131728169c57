/**
 * The few JavaScript string and array built-ins the scripts rely on:
 * `String.prototype.replace` with a string pattern (only the first
 * occurrence is replaced, and `$` sequences in the replacement are
 * expanded), `Array.prototype.join`, and repeated `+=` concatenation.
 */
module JsStrings {
  import opened Wrappers

  /** `pat` occurs in `s` starting at index `k`. */
  predicate OccursAt(s: string, pat: string, k: int) {
    0 <= k && k + |pat| <= |s| && s[k..k + |pat|] == pat
  }

  predicate Contains(s: string, pat: string) {
    exists k :: 0 <= k <= |s| && OccursAt(s, pat, k)
  }

  /** The first index at or after `from` where `pat` occurs in `s`. */
  function FindFrom(s: string, pat: string, from: nat): (r: Option<nat>)
    decreases |s| - from
    ensures r.Some? ==> from <= r.value && OccursAt(s, pat, r.value)
    ensures r.Some? ==> forall k :: from <= k < r.value ==> !OccursAt(s, pat, k)
    ensures r.None? ==> forall k :: from <= k ==> !OccursAt(s, pat, k)
  {
    if from + |pat| > |s| then None
    else if s[from..from + |pat|] == pat then Some(from)
    else FindFrom(s, pat, from + 1)
  }

  /** `s.indexOf(pat)`, with `None` for -1. */
  function IndexOf(s: string, pat: string): (r: Option<nat>)
    ensures r.None? <==> !Contains(s, pat)
    ensures r.Some? ==> OccursAt(s, pat, r.value)
    ensures r.Some? ==> forall k :: 0 <= k < r.value ==> !OccursAt(s, pat, k)
  {
    FindFrom(s, pat, 0)
  }

  /**
   * The replacement text of `replace` for a string pattern (no capture
   * groups): `$$` gives `$`, `$&` the matched text, `` $` `` the text before
   * the match and `$'` the text after it; any other `$` is kept literally.
   */
  function Expand(rep: string, before: string, matched: string, after: string): string
    decreases |rep|
  {
    if |rep| == 0 then ""
    else if rep[0] == '$' && |rep| >= 2 then
      if rep[1] == '$' then "$" + Expand(rep[2..], before, matched, after)
      else if rep[1] == '&' then matched + Expand(rep[2..], before, matched, after)
      else if rep[1] == '`' then before + Expand(rep[2..], before, matched, after)
      else if rep[1] == '\'' then after + Expand(rep[2..], before, matched, after)
      else "$" + Expand(rep[1..], before, matched, after)
    else [rep[0]] + Expand(rep[1..], before, matched, after)
  }

  /** `s.replace(pat, rep)` for a string `pat`: only the first occurrence is replaced. */
  function ReplaceFirst(s: string, pat: string, rep: string): (r: string)
    ensures !Contains(s, pat) ==> r == s
  {
    match IndexOf(s, pat)
    case None => s
    case Some(j) => s[..j] + Expand(rep, s[..j], pat, s[j + |pat|..]) + s[j + |pat|..]
  }

  /** The four `$` sequences of a replacement and what they stand for. */
  lemma ExpandDollarSequences(before: string, matched: string, after: string)
    ensures Expand("$$", before, matched, after) == "$"
    ensures Expand("$&", before, matched, after) == matched
    ensures Expand("$`", before, matched, after) == before
    ensures Expand("$'", before, matched, after) == after
    ensures Expand("$1", before, matched, after) == "$1"
  {
    assert "$$"[2..] == [] && "$&"[2..] == [] && "$`"[2..] == [] && "$'"[2..] == [];
    assert "$1"[1..] == "1" && "1"[1..] == [];
  }

  /** A replacement without `$` is inserted as it is. */
  lemma {:induction false} ExpandLiteral(rep: string, before: string, matched: string, after: string)
    requires '$' !in rep
    ensures Expand(rep, before, matched, after) == rep
  {
    if |rep| > 0 {
      assert '$' !in rep[1..];
      ExpandLiteral(rep[1..], before, matched, after);
    }
  }

  /**
   * When the first occurrence of `pat` in `a + pat + b` is the one right
   * after `a`, replace rewrites exactly that occurrence; `b` is left alone
   * even if it contains `pat` again.
   */
  lemma ReplaceFirstAt(a: string, pat: string, b: string, rep: string)
    requires forall k :: 0 <= k < |a| ==> !OccursAt(a + pat + b, pat, k)
    ensures ReplaceFirst(a + pat + b, pat, rep) == a + Expand(rep, a, pat, b) + b
  {
    var s := a + pat + b;
    assert s[|a|..|a| + |pat|] == pat;
    assert OccursAt(s, pat, |a|);
    var j := IndexOf(s, pat);
    assert j == Some(|a|);
    assert s[..|a|] == a;
    assert s[|a| + |pat|..] == b;
  }

  /** `pat` cannot start inside `a` when its first character does not occur in `a`. */
  lemma NoOccurrenceBefore(a: string, pat: string, b: string)
    requires |pat| > 0 && pat[0] !in a
    ensures forall k :: 0 <= k < |a| ==> !OccursAt(a + pat + b, pat, k)
  {
    var s := a + pat + b;
    forall k | 0 <= k < |a|
      ensures !OccursAt(s, pat, k)
    {
      assert s[k] == a[k];
    }
  }

  /** The literal form of ReplaceFirstAt, for a replacement without `$`. */
  lemma ReplaceFirstLiteral(a: string, pat: string, b: string, rep: string)
    requires forall k :: 0 <= k < |a| ==> !OccursAt(a + pat + b, pat, k)
    requires '$' !in rep
    ensures ReplaceFirst(a + pat + b, pat, rep) == a + rep + b
  {
    ReplaceFirstAt(a, pat, b, rep);
    ExpandLiteral(rep, a, pat, b);
  }

  /** `parts.join(sep)`. */
  function Join(sep: string, parts: seq<string>): string
    decreases |parts|
  {
    if |parts| == 0 then ""
    else if |parts| == 1 then parts[0]
    else parts[0] + sep + Join(sep, parts[1..])
  }

  /** A non-empty join starts with the first part. */
  lemma {:induction false} JoinStartsWithFirst(sep: string, parts: seq<string>)
    requires |parts| > 0
    ensures |Join(sep, parts)| >= |parts[0]|
    ensures Join(sep, parts)[..|parts[0]|] == parts[0]
  {
    if |parts| > 1 {
      var rest := sep + Join(sep, parts[1..]);
      assert Join(sep, parts) == parts[0] + rest;
      assert (parts[0] + rest)[..|parts[0]|] == parts[0];
    }
  }

  /** Joining one more part appends the separator and that part. */
  lemma {:induction false} JoinSnoc(sep: string, parts: seq<string>, last: string)
    requires |parts| > 0
    ensures Join(sep, parts + [last]) == Join(sep, parts) + sep + last
    decreases |parts|
  {
    if |parts| == 1 {
      assert (parts + [last])[1..] == [last];
    } else {
      assert (parts + [last])[1..] == parts[1..] + [last];
      JoinSnoc(sep, parts[1..], last);
    }
  }

  /** The strings of `parts` one after another, the result of repeated `+=`. */
  function Concat(parts: seq<string>): string
    decreases |parts|
  {
    if |parts| == 0 then "" else Concat(parts[..|parts| - 1]) + parts[|parts| - 1]
  }

  lemma {:induction false} ConcatAppend(a: seq<string>, b: seq<string>)
    ensures Concat(a + b) == Concat(a) + Concat(b)
    decreases |b|
  {
    if |b| == 0 {
      assert a + b == a;
    } else {
      var b' := b[..|b| - 1];
      assert (a + b)[..|a + b| - 1] == a + b';
      ConcatAppend(a, b');
    }
  }
}
