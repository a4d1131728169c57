/**
 * The collector of page titles from random sites: it requests a fixed
 * number of random `http://<word>.com` addresses one after another, takes
 * the text of each answer's `h1` elements with every run of two or more
 * whitespace characters collapsed into one space, and appends each
 * non-empty title as an unlabeled entry to the data it then saves.
 *
 * The HTTP requests and the HTML parsing are replaced by their outcome:
 * for each request, None when it failed, or Some with the `h1` text.
 * `Math.random` is replaced by the numbers it would have returned.
 */
module RandomSiteTitles {
  import opened Wrappers
  import opened TrainingData

  const RandomSiteAmount: nat := 1000
  const Characters: string := "abcdefghijklmnopqrstuvwxyz"

  // ---------------------------------------------------------------------
  // Whitespace collapse: `.replace(/\s\s+/g, ' ')`
  // ---------------------------------------------------------------------

  /** The characters the regular-expression class `\s` matches. */
  predicate IsWhitespace(c: char) {
    var n := c as int;
    (9 <= n <= 13) || n == 0x20 || n == 0xA0 || n == 0x1680 || (0x2000 <= n <= 0x200A)
    || n == 0x2028 || n == 0x2029 || n == 0x202F || n == 0x205F || n == 0x3000 || n == 0xFEFF
  }

  /** No two adjacent characters of `s` are whitespace. */
  predicate NoDoubleWhitespace(s: string) {
    forall i :: 0 <= i < |s| - 1 ==> !IsWhitespace(s[i]) || !IsWhitespace(s[i + 1])
  }

  /** The length of the run of whitespace that `s` starts with. */
  function WhitespaceRun(s: string): (k: nat)
    ensures k <= |s|
    ensures forall i :: 0 <= i < k ==> IsWhitespace(s[i])
    ensures k < |s| ==> !IsWhitespace(s[k])
    decreases |s|
  {
    if s != [] && IsWhitespace(s[0]) then 1 + WhitespaceRun(s[1..]) else 0
  }

  /**
   * `s.replace(/\s\s+/g, ' ')`: every maximal run of two or more whitespace
   * characters becomes one space; a lone whitespace character is kept.
   */
  function Collapse(s: string): (r: string)
    ensures |r| <= |s|
    ensures |s| > 0 ==> |r| > 0 && (IsWhitespace(r[0]) <==> IsWhitespace(s[0]))
    ensures |s| > 0 && !IsWhitespace(s[0]) ==> r[0] == s[0]
    decreases |s|
  {
    if s == [] then []
    else
      var k := WhitespaceRun(s);
      if k >= 2 then [' '] + Collapse(s[k..])
      else [s[0]] + Collapse(s[1..])
  }

  /** The characters of `s` that are not whitespace, in order. */
  function NonWhitespace(s: string): string
    decreases |s|
  {
    if s == [] then []
    else if IsWhitespace(s[0]) then NonWhitespace(s[1..])
    else [s[0]] + NonWhitespace(s[1..])
  }

  /** After the collapse no two adjacent characters are whitespace. */
  lemma {:induction false} CollapseNoDoubleWhitespace(s: string)
    ensures NoDoubleWhitespace(Collapse(s))
    decreases |s|
  {
    if s != [] {
      var k := WhitespaceRun(s);
      var rest := if k >= 2 then s[k..] else s[1..];
      CollapseNoDoubleWhitespace(rest);
      var head := if k >= 2 then ' ' else s[0];
      assert Collapse(s) == [head] + Collapse(rest);
      assert IsWhitespace(head) ==> rest == [] || !IsWhitespace(rest[0]);
      var r := Collapse(s);
      forall i | 0 <= i < |r| - 1
        ensures !IsWhitespace(r[i]) || !IsWhitespace(r[i + 1])
      {
        if i > 0 {
          assert r[i] == Collapse(rest)[i - 1] && r[i + 1] == Collapse(rest)[i];
        }
      }
    }
  }

  /** Skipping a run of whitespace does not change the non-whitespace characters. */
  lemma {:induction false} NonWhitespaceSkipsRun(s: string, k: nat)
    requires k <= |s|
    requires forall i :: 0 <= i < k ==> IsWhitespace(s[i])
    ensures NonWhitespace(s) == NonWhitespace(s[k..])
    decreases k
  {
    if k > 0 {
      NonWhitespaceSkipsRun(s[1..], k - 1);
      assert s[1..][k - 1..] == s[k..];
    }
  }

  /** The collapse keeps every non-whitespace character, in order, and adds none. */
  lemma {:induction false} CollapseKeepsNonWhitespace(s: string)
    ensures NonWhitespace(Collapse(s)) == NonWhitespace(s)
    decreases |s|
  {
    if s != [] {
      var k := WhitespaceRun(s);
      if k >= 2 {
        CollapseKeepsNonWhitespace(s[k..]);
        NonWhitespaceSkipsRun(s, k);
        assert ([' '] + Collapse(s[k..]))[1..] == Collapse(s[k..]);
      } else {
        CollapseKeepsNonWhitespace(s[1..]);
        assert ([s[0]] + Collapse(s[1..]))[1..] == Collapse(s[1..]);
      }
    }
  }

  /** A string without two adjacent whitespace characters is left as it is. */
  lemma {:induction false} CollapseKeepsSingles(s: string)
    requires NoDoubleWhitespace(s)
    ensures Collapse(s) == s
    decreases |s|
  {
    if s != [] {
      assert WhitespaceRun(s) < 2 by {
        if |s| >= 2 && IsWhitespace(s[0]) {
          assert !IsWhitespace(s[1]);
        }
      }
      assert NoDoubleWhitespace(s[1..]) by {
        forall i | 0 <= i < |s[1..]| - 1
          ensures !IsWhitespace(s[1..][i]) || !IsWhitespace(s[1..][i + 1])
        {
          assert s[1..][i] == s[i + 1] && s[1..][i + 1] == s[i + 2];
        }
      }
      CollapseKeepsSingles(s[1..]);
      assert s == [s[0]] + s[1..];
    }
  }

  /** The strings the collapse leaves unchanged are exactly those without adjacent whitespace. */
  lemma CollapseFixedPoints(s: string)
    ensures Collapse(s) == s <==> NoDoubleWhitespace(s)
  {
    CollapseNoDoubleWhitespace(s);
    if NoDoubleWhitespace(s) {
      CollapseKeepsSingles(s);
    }
  }

  /** Collapsing twice is collapsing once. */
  lemma CollapseIdempotent(s: string)
    ensures Collapse(Collapse(s)) == Collapse(s)
  {
    CollapseNoDoubleWhitespace(s);
    CollapseKeepsSingles(Collapse(s));
  }

  /** Only the empty string collapses to the empty string. */
  lemma CollapseEmpty(s: string)
    ensures Collapse(s) == "" <==> s == ""
  {
  }

  /** A run of whitespace that starts a string ending in non-whitespace ends inside it. */
  lemma {:induction false} WhitespaceRunPrefix(a: string, b: string)
    requires WhitespaceRun(a) < |a|
    ensures WhitespaceRun(a + b) == WhitespaceRun(a)
    decreases |a|
  {
    if IsWhitespace(a[0]) {
      assert (a + b)[1..] == a[1..] + b;
      WhitespaceRunPrefix(a[1..], b);
    }
  }

  /** A whitespace run followed by nothing or by non-whitespace is read whole. */
  lemma {:induction false} WhitespaceRunWhole(w: string, b: string)
    requires forall i :: 0 <= i < |w| ==> IsWhitespace(w[i])
    requires b == [] || !IsWhitespace(b[0])
    ensures WhitespaceRun(w + b) == |w|
    decreases |w|
  {
    if |w| > 0 {
      assert (w + b)[1..] == w[1..] + b;
      WhitespaceRunWhole(w[1..], b);
    }
  }

  /** How many characters the collapse consumes at the start of a non-empty string. */
  function Consumed(s: string): (n: nat)
    requires s != []
    ensures 1 <= n <= |s|
  {
    if WhitespaceRun(s) >= 2 then WhitespaceRun(s) else 1
  }

  /** The character the collapse emits for what it consumes. */
  function Emitted(s: string): char
    requires s != []
  {
    if WhitespaceRun(s) >= 2 then ' ' else s[0]
  }

  lemma CollapseStep(s: string)
    requires s != []
    ensures Collapse(s) == [Emitted(s)] + Collapse(s[Consumed(s)..])
  {
  }

  /** The collapse works piecewise across a cut just after a non-whitespace character. */
  lemma {:induction false} CollapseAppend(a: string, b: string)
    requires a == [] || !IsWhitespace(a[|a| - 1])
    ensures Collapse(a + b) == Collapse(a) + Collapse(b)
    decreases |a|
  {
    if a == [] {
      assert a + b == b;
    } else {
      assert WhitespaceRun(a) < |a|;
      WhitespaceRunPrefix(a, b);
      var n := Consumed(a);
      var rest := a[n..];
      assert (a + b)[0] == a[0];
      assert Consumed(a + b) == n && Emitted(a + b) == Emitted(a);
      assert (a + b)[n..] == rest + b;
      assert rest == [] || rest[|rest| - 1] == a[|a| - 1];
      CollapseAppend(rest, b);
      CollapseStep(a + b);
      CollapseStep(a);
      ConsAssociates(Collapse(a + b), Collapse(a), Emitted(a), Collapse(rest), Collapse(b));
    }
  }

  /** From `whole == [e] + (y + z)` and `left == [e] + y`: `whole == left + z`. */
  lemma ConsAssociates(whole: string, left: string, e: char, y: string, z: string)
    requires whole == [e] + (y + z) && left == [e] + y
    ensures whole == left + z
  {
  }

  /** What the collapse makes of a middle piece `m` carries over to any `a` ending in a non-whitespace character. */
  lemma CollapseAround(a: string, m: string, b: string, mid: string)
    requires a == [] || !IsWhitespace(a[|a| - 1])
    requires Collapse(m + b) == mid + Collapse(b)
    ensures Collapse(a + m + b) == Collapse(a) + mid + Collapse(b)
  {
    CollapseAppend(a, m + b);
    assert a + m + b == a + (m + b);
  }

  /**
   * A maximal run of two or more whitespace characters between `a` and
   * `b` becomes exactly one space.
   */
  lemma CollapseRun(a: string, w: string, b: string)
    requires a == [] || !IsWhitespace(a[|a| - 1])
    requires |w| >= 2 && forall i :: 0 <= i < |w| ==> IsWhitespace(w[i])
    requires b == [] || !IsWhitespace(b[0])
    ensures Collapse(a + w + b) == Collapse(a) + " " + Collapse(b)
  {
    CollapseRunFront(w, b);
    CollapseAround(a, w, b, " ");
  }

  /** A run of two or more whitespace characters at the front becomes one space. */
  lemma CollapseRunFront(w: string, b: string)
    requires |w| >= 2 && forall i :: 0 <= i < |w| ==> IsWhitespace(w[i])
    requires b == [] || !IsWhitespace(b[0])
    ensures Collapse(w + b) == " " + Collapse(b)
  {
    WhitespaceRunWhole(w, b);
    assert (w + b)[|w|..] == b;
    CollapseStep(w + b);
  }

  /** A lone whitespace character at the front survives. */
  lemma CollapseLoneFront(c: char, b: string)
    requires IsWhitespace(c)
    requires b == [] || !IsWhitespace(b[0])
    ensures Collapse([c] + b) == [c] + Collapse(b)
  {
    WhitespaceRunWhole([c], b);
    assert ([c] + b)[1..] == b;
    CollapseStep([c] + b);
  }

  /** A lone whitespace character between `a` and `b` (a single newline, say) is kept as it is. */
  lemma CollapseLone(a: string, c: char, b: string)
    requires a == [] || !IsWhitespace(a[|a| - 1])
    requires IsWhitespace(c)
    requires b == [] || !IsWhitespace(b[0])
    ensures Collapse(a + [c] + b) == Collapse(a) + [c] + Collapse(b)
  {
    CollapseLoneFront(c, b);
    CollapseAround(a, [c], b, [c]);
  }

  // ---------------------------------------------------------------------
  // The entries the titles yield
  // ---------------------------------------------------------------------

  /** What one request contributes: nothing on failure or an empty title, else the collapsed title. */
  function TitleEntries(response: Option<string>): seq<Entry> {
    match response
    case None => []
    case Some(title) => if Collapse(title) == "" then [] else [Entry(Collapse(title), [])]
  }

  /** The entries a sequence of requests adds, in response order. */
  function Harvest(responses: seq<Option<string>>): seq<Entry>
    decreases |responses|
  {
    if responses == [] then []
    else Harvest(responses[..|responses| - 1]) + TitleEntries(responses[|responses| - 1])
  }

  lemma {:induction false} HarvestAppend(a: seq<Option<string>>, b: seq<Option<string>>)
    ensures Harvest(a + b) == Harvest(a) + Harvest(b)
    decreases |b|
  {
    if |b| == 0 {
      assert a + b == a;
    } else {
      var b' := b[..|b| - 1];
      assert (a + b)[..|a + b| - 1] == a + b';
      assert (a + b)[|a + b| - 1] == b[|b| - 1];
      HarvestAppend(a, b');
    }
  }

  /**
   * Every added entry is unlabeled, non-empty and collapsed, and there is
   * at most one per request.
   */
  lemma {:induction false} HarvestShape(responses: seq<Option<string>>)
    ensures |Harvest(responses)| <= |responses|
    ensures forall e :: e in Harvest(responses) ==> e.labels == [] && e.text != "" && NoDoubleWhitespace(e.text)
    decreases |responses|
  {
    if responses != [] {
      HarvestShape(responses[..|responses| - 1]);
      match responses[|responses| - 1]
      case None =>
      case Some(title) => CollapseNoDoubleWhitespace(title);
    }
  }

  /** Failed requests add nothing. */
  lemma {:induction false} HarvestOfFailures(responses: seq<Option<string>>)
    requires forall i :: 0 <= i < |responses| ==> responses[i].None?
    ensures Harvest(responses) == []
    decreases |responses|
  {
    if responses != [] {
      HarvestOfFailures(responses[..|responses| - 1]);
    }
  }

  // ---------------------------------------------------------------------
  // The collector's state
  // ---------------------------------------------------------------------

  class TitleCollector {
    var randomSiteRequestCounter: nat
    var responseNo: nat
    /** `jsonFileContent.data`. */
    var data: seq<Entry>
    /** The data last written to the output file; None before any save. */
    var savedFile: Option<seq<Entry>>
    var saves: nat

    ghost predicate Valid()
      reads this
    {
      randomSiteRequestCounter <= RandomSiteAmount
    }

    /** Start from the existing output file's data, or from no data when there is none. */
    constructor (existing: Option<seq<Entry>>)
      ensures Valid()
      ensures randomSiteRequestCounter == 0 && responseNo == 0
      ensures data == existing.GetOr([]) && savedFile == None && saves == 0
    {
      randomSiteRequestCounter := 0;
      responseNo := 0;
      data := existing.GetOr([]);
      savedFile := None;
      saves := 0;
    }

    /** `trackResponse`: count one more response and return the new count. */
    method TrackResponse() returns (n: nat)
      modifies this`responseNo
      ensures responseNo == old(responseNo) + 1 && n == responseNo
    {
      responseNo := responseNo + 1;
      n := responseNo;
    }

    /** `writeFileContent`: append one unlabeled entry; earlier entries stay as they are. */
    method WriteFileContent(sentence: string)
      modifies this`data
      ensures data == old(data) + [Entry(sentence, [])]
    {
      data := data + [Entry(sentence, [])];
    }

    /** `saveToFile`: write the whole data to the output file. */
    method SaveToFile()
      modifies this`savedFile, this`saves
      ensures savedFile == Some(data) && saves == old(saves) + 1
    {
      savedFile := Some(data);
      saves := saves + 1;
    }

    /** Successive calls of `trackResponse` return 1, 2, 3, ... from a fresh state. */
    method TrackThree() returns (first: nat, second: nat, third: nat)
      requires responseNo == 0
      modifies this`responseNo
      ensures first == 1 && second == 2 && third == 3 && responseNo == 3
    {
      first := TrackResponse();
      second := TrackResponse();
      third := TrackResponse();
    }

    /** The handling of one request's outcome: count it, and keep a non-empty collapsed title. */
    method HandleResponse(response: Option<string>)
      modifies this`responseNo, this`data
      ensures responseNo == old(responseNo) + 1
      ensures data == old(data) + TitleEntries(response)
    {
      var _ := TrackResponse();
      match response
      case None =>
      case Some(title) =>
        var content := Collapse(title);
        if content != "" {
          WriteFileContent(content);
        }
    }

    /**
     * `requestRandomSitesTitle`: the recursion through `finally` as a loop.
     * It issues one request per remaining unit of `randomSiteAmount`, never
     * lets the counter pass that amount, and saves once, when the counter
     * reaches it.
     */
    method RequestRandomSitesTitle(responses: seq<Option<string>>)
      requires Valid()
      requires |responses| == RandomSiteAmount - randomSiteRequestCounter
      modifies this
      ensures Valid()
      ensures randomSiteRequestCounter == RandomSiteAmount
      ensures responseNo == old(responseNo) + |responses|
      ensures data == old(data) + Harvest(responses)
      ensures savedFile == Some(data) && saves == old(saves) + 1
    {
      var i := 0;
      while randomSiteRequestCounter < RandomSiteAmount
        invariant Valid()
        invariant i == randomSiteRequestCounter - old(randomSiteRequestCounter) && i <= |responses|
        invariant responseNo == old(responseNo) + i
        invariant data == old(data) + Harvest(responses[..i])
        invariant saves == old(saves)
        decreases RandomSiteAmount - randomSiteRequestCounter
      {
        randomSiteRequestCounter := randomSiteRequestCounter + 1;
        assert responses[..i + 1][..i] == responses[..i];
        HandleResponse(responses[i]);
        i := i + 1;
      }
      assert responses[..i] == responses;
      SaveToFile();
    }
  }

  // ---------------------------------------------------------------------
  // Random text
  // ---------------------------------------------------------------------

  /** `Math.floor(random * 26)` for a `Math.random()` result, an index into Characters. */
  function CharacterIndex(random: real): (k: int)
    requires 0.0 <= random < 1.0
    ensures 0 <= k < |Characters|
  {
    (random * 26.0).Floor
  }

  /** Every character of Characters is a lower-case letter. */
  lemma CharactersAreLetters(k: int)
    requires 0 <= k < |Characters|
    ensures 'a' <= Characters[k] <= 'z'
  {
  }

  /**
   * `makeRandomText(length)`, with `randoms[i]` the value `Math.random()`
   * gives on the i-th turn of the loop: exactly `length` letters, the i-th
   * being the letter that value selects.
   */
  method MakeRandomText(length: nat, randoms: seq<real>) returns (result: string)
    requires |randoms| == length
    requires forall i :: 0 <= i < |randoms| ==> 0.0 <= randoms[i] < 1.0
    ensures |result| == length
    ensures forall i :: 0 <= i < length ==> result[i] == Characters[CharacterIndex(randoms[i])]
    ensures forall i :: 0 <= i < length ==> 'a' <= result[i] <= 'z'
  {
    result := "";
    for i := 0 to length
      invariant |result| == i
      invariant forall j :: 0 <= j < i ==> result[j] == Characters[CharacterIndex(randoms[j])]
      invariant forall j :: 0 <= j < i ==> 'a' <= result[j] <= 'z'
    {
      var c := Characters[CharacterIndex(randoms[i])];
      CharactersAreLetters(CharacterIndex(randoms[i]));
      result := result + [c];
    }
  }
}
