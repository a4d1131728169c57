/**
 * The converter from a JSON training file (`{data: [{text, labels}, ...]}`)
 * to the classifier's line format, `__label__a __label__b text \n`, split
 * into a training file and a validation file by a validation percentage
 * given on the command line.
 */
module TransformJsonToTxt {
  import opened Wrappers
  import opened JsStrings
  import opened TrainingData

  const LabelPrefix: string := "__label__"
  const DefaultFileName: string := "data.json"

  // ---------------------------------------------------------------------
  // Labels and lines
  // ---------------------------------------------------------------------

  /** The classifier's label for a label name. */
  function CreateLabel(labelName: string): string {
    LabelPrefix + labelName
  }

  /** The label name a classifier label carries, if `s` is a label. */
  function ParseLabel(s: string): Option<string> {
    if |s| >= |LabelPrefix| && s[..|LabelPrefix|] == LabelPrefix then Some(s[|LabelPrefix|..]) else None
  }

  /** ParseLabel inverts CreateLabel. */
  lemma ParseCreateLabel(labelName: string)
    ensures ParseLabel(CreateLabel(labelName)) == Some(labelName)
  {
    assert CreateLabel(labelName)[..|LabelPrefix|] == LabelPrefix;
    assert CreateLabel(labelName)[|LabelPrefix|..] == labelName;
  }

  /** ParseLabel accepts nothing CreateLabel cannot produce. */
  lemma CreateParseLabel(s: string)
    ensures ParseLabel(s).Some? ==> CreateLabel(ParseLabel(s).value) == s
  {
    if ParseLabel(s).Some? {
      assert s == s[..|LabelPrefix|] + s[|LabelPrefix|..];
    }
  }

  /** `labels.map(createLabel)`. */
  function Labels(labelNames: seq<string>): (r: seq<string>)
    ensures |r| == |labelNames|
    ensures forall i :: 0 <= i < |r| ==> r[i] == CreateLabel(labelNames[i])
  {
    seq(|labelNames|, i requires 0 <= i < |labelNames| => CreateLabel(labelNames[i]))
  }

  /** Every label of `labels.map(createLabel)` reads back as the name it was made from. */
  lemma LabelsParseBack(labelNames: seq<string>)
    ensures forall i :: 0 <= i < |labelNames| ==> ParseLabel(Labels(labelNames)[i]) == Some(labelNames[i])
  {
    forall i | 0 <= i < |labelNames|
      ensures ParseLabel(Labels(labelNames)[i]) == Some(labelNames[i])
    {
      ParseCreateLabel(labelNames[i]);
    }
  }

  /**
   * The line written for one entry: the labels joined by spaces, a space,
   * the text, and the terminator `" \n"`.
   */
  function EntryLine(e: Entry): string {
    Join(" ", Labels(e.labels)) + " " + e.text + " \n"
  }

  /**
   * Every line ends with a space, the text and `" \n"`; it is exactly that
   * (so it starts with the space) when the entry has no labels, and starts
   * with the first label otherwise.
   */
  lemma EntryLineShape(e: Entry)
    ensures |EntryLine(e)| >= |e.text| + 3
    ensures EntryLine(e)[|EntryLine(e)| - |e.text| - 3..] == " " + e.text + " \n"
    ensures e.labels == [] <==> |EntryLine(e)| == |e.text| + 3
    ensures e.labels != [] ==>
      |EntryLine(e)| >= |CreateLabel(e.labels[0])| &&
      EntryLine(e)[..|CreateLabel(e.labels[0])|] == CreateLabel(e.labels[0])
  {
    var prefix := Join(" ", Labels(e.labels));
    var tail := " " + e.text + " \n";
    assert EntryLine(e) == prefix + tail;
    assert (prefix + tail)[|prefix|..] == tail;
    if e.labels != [] {
      JoinStartsWithFirst(" ", Labels(e.labels));
      assert (prefix + tail)[..|CreateLabel(e.labels[0])|] == prefix[..|CreateLabel(e.labels[0])|];
    } else {
      assert prefix == "";
    }
  }

  /** The line of each entry, in order. */
  function Lines(entries: seq<Entry>): (r: seq<string>)
    ensures |r| == |entries|
    ensures forall i :: 0 <= i < |r| ==> r[i] == EntryLine(entries[i])
  {
    seq(|entries|, i requires 0 <= i < |entries| => EntryLine(entries[i]))
  }

  /** The file content written for `entries`: their lines one after another. */
  function Text(entries: seq<Entry>): string
    decreases |entries|
  {
    if |entries| == 0 then "" else Text(entries[..|entries| - 1]) + EntryLine(entries[|entries| - 1])
  }

  /** The file content is the concatenation of the entries' lines. */
  lemma {:induction false} TextIsLines(entries: seq<Entry>)
    ensures Text(entries) == Concat(Lines(entries))
    decreases |entries|
  {
    if |entries| > 0 {
      var init := entries[..|entries| - 1];
      TextIsLines(init);
      assert Lines(entries)[..|entries| - 1] == Lines(init);
    }
  }

  /** The lines of two runs of entries: those of the first, then those of the second. */
  lemma LinesAppend(a: seq<Entry>, b: seq<Entry>)
    ensures Lines(a + b) == Lines(a) + Lines(b)
  {
    forall i | 0 <= i < |a + b|
      ensures Lines(a + b)[i] == (Lines(a) + Lines(b))[i]
    {
      if i < |a| {
        assert (a + b)[i] == a[i];
      } else {
        assert (a + b)[i] == b[i - |a|];
      }
    }
  }

  /** Writing two runs of entries one after the other writes their concatenation. */
  lemma TextAppend(a: seq<Entry>, b: seq<Entry>)
    ensures Text(a + b) == Text(a) + Text(b)
  {
    LinesAppend(a, b);
    TextIsLines(a + b);
    TextIsLines(a);
    TextIsLines(b);
    ConcatAppend(Lines(a), Lines(b));
  }

  /**
   * The training file holds the lines of entries [0, t), the validation
   * file those of [t, n): together they are the line of every entry exactly
   * once, in the entries' order.
   */
  lemma Partition(data: seq<Entry>, t: nat)
    requires t <= |data|
    ensures Text(data[..t]) + Text(data[t..]) == Text(data)
  {
    TakeDropJoin(data, t);
    TextSplit(data[..t], data[t..], data);
  }

  lemma TakeDropJoin(data: seq<Entry>, t: nat)
    requires t <= |data|
    ensures data[..t] + data[t..] == data
  {
  }

  lemma TextSplit(a: seq<Entry>, b: seq<Entry>, whole: seq<Entry>)
    requires a + b == whole
    ensures Text(a) + Text(b) == Text(whole)
  {
    TextAppend(a, b);
  }

  /** The same split on the list of lines: t lines for training, the other n - t for validation. */
  lemma PartitionLines(data: seq<Entry>, t: nat)
    requires t <= |data|
    ensures Lines(data[..t]) + Lines(data[t..]) == Lines(data)
    ensures |Lines(data[..t])| == t && |Lines(data[t..])| == |data| - t
  {
    var train, valid := Lines(data[..t]), Lines(data[t..]);
    forall i | 0 <= i < |data|
      ensures (train + valid)[i] == Lines(data)[i]
    {
      if i < t {
        assert (train + valid)[i] == train[i] == EntryLine(data[i]);
      } else {
        assert (train + valid)[i] == valid[i - t] == EntryLine(data[i]);
      }
    }
  }

  // ---------------------------------------------------------------------
  // Command-line arguments
  // ---------------------------------------------------------------------

  /** A JavaScript number, as far as the script can tell them apart. */
  datatype Number = Finite(n: int) | NaN

  predicate IsDigit(c: char) {
    '0' <= c <= '9'
  }

  function DigitsValue(s: string): nat
    requires forall i :: 0 <= i < |s| ==> IsDigit(s[i])
    decreases |s|
  {
    if |s| == 0 then 0
    else
      assert IsDigit(s[|s| - 1]);
      DigitsValue(s[..|s| - 1]) * 10 + ((s[|s| - 1] as int) - ('0' as int))
  }

  /** A non-empty run of decimal digits. */
  predicate IsDigits(s: string) {
    |s| > 0 && forall i :: 0 <= i < |s| ==> IsDigit(s[i])
  }

  /** `Number(s)` for a decimal integer literal with an optional sign; anything else is NaN. */
  function ToNumber(s: string): Number {
    if |s| > 0 && (s[0] == '-' || s[0] == '+') then
      if IsDigits(s[1..]) then
        var value: int := DigitsValue(s[1..]);
        Finite(if s[0] == '-' then -value else value)
      else NaN
    else if IsDigits(s) then Finite(DigitsValue(s))
    else NaN
  }

  /** The decimal digits of `n`, without leading zeros. */
  function Decimal(n: nat): (s: string)
    ensures IsDigits(s)
    ensures |s| > 1 ==> s[0] != '0'
    decreases n
  {
    if n < 10 then [('0' as int + n) as char]
    else Decimal(n / 10) + [('0' as int + n % 10) as char]
  }

  lemma {:induction false} DecimalValue(n: nat)
    ensures DigitsValue(Decimal(n)) == n
    decreases n
  {
    if n >= 10 {
      DecimalValue(n / 10);
      var s := Decimal(n);
      assert s[..|s| - 1] == Decimal(n / 10);
    }
  }

  /** Number reads back the integer a decimal literal, with or without a sign, spells. */
  lemma ToNumberOfDecimal(n: nat)
    ensures ToNumber(Decimal(n)) == Finite(n)
    ensures ToNumber("+" + Decimal(n)) == Finite(n)
    ensures ToNumber("-" + Decimal(n)) == Finite(-(n as int))
  {
    DecimalValue(n);
    assert ("+" + Decimal(n))[1..] == Decimal(n);
    assert ("-" + Decimal(n))[1..] == Decimal(n);
  }

  /** `Number(args[1] || 0)`: a missing or empty argument is the number 0. */
  function PercentageArgument(arg: Option<string>): Number {
    match arg
    case None => Finite(0)
    case Some(s) => if s == "" then Finite(0) else ToNumber(s)
  }

  /** `args[0] || 'data.json'`. */
  function FileNameArgument(arg: Option<string>): string {
    match arg
    case None => DefaultFileName
    case Some(s) => if s == "" then DefaultFileName else s
  }

  /** A missing or empty name is `data.json`; any other name is used as given. */
  lemma FileNameArgumentDefaults(name: string)
    ensures FileNameArgument(None) == "data.json"
    ensures FileNameArgument(Some("")) == "data.json"
    ensures name != "" ==> FileNameArgument(Some(name)) == name
  {
  }

  /** JavaScript truthiness of a number: 0 and NaN are falsy. */
  predicate Truthy(v: Number) {
    v.Finite? && v.n != 0
  }

  datatype ArgumentError = NotANumber | OverHundred

  /**
   * The two guards on the percentage: `!v && v !== 0` rejects only NaN, and
   * `v > 100` rejects larger values. A negative percentage passes both.
   */
  function ValidatePercentage(v: Number): (r: Result<int, ArgumentError>)
    ensures r == Err(NotANumber) <==> v.NaN?
    ensures r == Err(OverHundred) <==> v.Finite? && v.n > 100
    ensures r.Ok? <==> v.Finite? && v.n <= 100
    ensures r.Ok? ==> r.value == v.n
  {
    if !Truthy(v) && !(v.Finite? && v.n == 0) then Err(NotANumber)
    else if v.n > 100 then Err(OverHundred)
    else Ok(v.n)
  }

  /** A missing percentage is accepted as 0; negative ones are accepted too. */
  lemma ArgumentDefaults()
    ensures ValidatePercentage(PercentageArgument(None)) == Ok(0)
    ensures ValidatePercentage(PercentageArgument(Some(""))) == Ok(0)
    ensures ValidatePercentage(PercentageArgument(Some("abc"))) == Err(NotANumber)
    ensures ValidatePercentage(PercentageArgument(Some("101"))) == Err(OverHundred)
    ensures ValidatePercentage(PercentageArgument(Some("-5"))) == Ok(-5)
    ensures ValidatePercentage(PercentageArgument(Some("20"))) == Ok(20)
  {
    assert DigitsValue("5") == 5;
    assert DigitsValue("10") == 10 && DigitsValue("101") == 101;
    assert DigitsValue("2") == 2 && DigitsValue("20") == 20;
    assert !IsDigits("abc") by {
      assert !IsDigit("abc"[0]);
    }
    assert "-5"[1..] == "5";
  }

  // ---------------------------------------------------------------------
  // Output file names
  // ---------------------------------------------------------------------

  function TrainFileName(name: string): string {
    ReplaceFirst(name, ".json", ".train")
  }

  function ValidFileName(name: string): string {
    ReplaceFirst(name, ".json", ".valid")
  }

  /** Only the first `.json` is replaced; whatever follows it is kept. */
  lemma OutputNamesReplaceFirst(stem: string, rest: string)
    requires forall k :: 0 <= k < |stem| ==> !OccursAt(stem + ".json" + rest, ".json", k)
    ensures TrainFileName(stem + ".json" + rest) == stem + ".train" + rest
    ensures ValidFileName(stem + ".json" + rest) == stem + ".valid" + rest
  {
    ReplaceFirstLiteral(stem, ".json", rest, ".train");
    ReplaceFirstLiteral(stem, ".json", rest, ".valid");
  }

  /** A name without `.json` is used unchanged, so both outputs get the same name. */
  lemma OutputNamesWithoutJson(name: string)
    requires !Contains(name, ".json")
    ensures TrainFileName(name) == name && ValidFileName(name) == name
  {
  }

  /** The default input `data.json` gives `data.train` and `data.valid`. */
  lemma DefaultOutputNames()
    ensures TrainFileName(FileNameArgument(None)) == "data.train"
    ensures ValidFileName(FileNameArgument(None)) == "data.valid"
  {
    var stem, rest := "data", "";
    assert FileNameArgument(None) == stem + ".json" + rest;
    assert stem + ".train" + rest == "data.train";
    assert stem + ".valid" + rest == "data.valid";
    NoOccurrenceBefore(stem, ".json", rest);
    OutputNamesReplaceFirst(stem, rest);
  }

  // ---------------------------------------------------------------------
  // The split
  // ---------------------------------------------------------------------

  /**
   * `Math.round(n * ((100 - p) / 100))` for an integer percentage, where
   * `Math.round(x)` is the integer t with t <= x + 1/2 < t + 1.
   */
  function TrainingCount(n: nat, p: int): (t: int)
    ensures 100 * t <= n * (100 - p) + 50 < 100 * t + 100
    ensures p <= 100 ==> t >= 0
    ensures 0 <= p ==> t <= n
  {
    assert 0 <= p ==> n * (100 - p) <= 100 * n by {
      if 0 <= p {
        assert n * p >= 0;
      }
    }
    (n * (100 - p) + 50) / 100
  }

  /** `Math.round(n * p / 100)`, the validation count the script logs. */
  function ValidationAmountLogged(n: nat, p: int): (v: int)
    ensures 100 * v <= n * p + 50 < 100 * v + 100
  {
    (n * p + 50) / 100
  }

  /** The edge percentages: 0 puts everything in training, 100 everything in validation. */
  lemma SplitEdges(n: nat)
    ensures TrainingCount(n, 0) == n
    ensures TrainingCount(n, 100) == 0
  {
  }

  /**
   * The two logged counts add up to n or to n + 1, for every percentage
   * the guards let through, negative ones included: the validation file
   * receives n - t entries, which is not always the logged figure.
   */
  lemma LoggedCountsOvercountByAtMostOne(n: nat, p: int)
    ensures n <= TrainingCount(n, p) + ValidationAmountLogged(n, p) <= n + 1
  {
    var t, v := TrainingCount(n, p), ValidationAmountLogged(n, p);
    assert n * (100 - p) + n * p == 100 * n;
  }

  /** One entry at 50% is logged as 1 training and 1 validation entry, but the validation file gets none. */
  lemma LoggedCountDiffersFromWritten()
    ensures TrainingCount(1, 50) == 1 && ValidationAmountLogged(1, 50) == 1
    ensures |Lines([Entry("x", [])][TrainingCount(1, 50)..])| == 0
  {
  }

  /** -1% passes the guards, and for 100 entries it asks for 101 training entries. */
  lemma NegativePercentageOverruns()
    ensures ValidatePercentage(Finite(-1)) == Ok(-1)
    ensures TrainingCount(100, -1) == 101
  {
  }

  /**
   * A negative percentage asks for more training entries than exist exactly
   * when n * |p| >= 50; below that every entry goes to training.
   */
  lemma NegativePercentageOverrunsExactly(n: nat, p: int)
    requires p < 0
    ensures TrainingCount(n, p) > n <==> n * -p >= 50
    ensures TrainingCount(n, p) >= n
  {
    var t := TrainingCount(n, p);
    assert n * (100 - p) == 100 * n + n * -p;
    assert n * -p >= 0;
  }

  // ---------------------------------------------------------------------
  // The script
  // ---------------------------------------------------------------------

  lemma SliceToEnd(data: seq<Entry>, lo: nat)
    requires lo <= |data|
    ensures data[lo..|data|] == data[lo..]
  {
  }

  /** One more entry appends its line. */
  lemma TextExtend(data: seq<Entry>, lo: nat, hi: nat)
    requires lo <= hi < |data|
    ensures Text(data[lo..hi + 1]) == Text(data[lo..hi]) + EntryLine(data[hi])
  {
    assert data[lo..hi + 1][..hi - lo] == data[lo..hi];
  }

  lemma TextExtendPrefix(data: seq<Entry>, i: nat)
    requires i < |data|
    ensures Text(data[..i + 1]) == Text(data[..i]) + EntryLine(data[i])
  {
    assert data[..i + 1][..i] == data[..i];
  }

  /**
   * The two `+=` loops: entries [0, t) into the training content, entries
   * [t, n) into the validation content. When t exceeds n the first loop
   * reads `data[n].labels` of an undefined entry, which throws; `complete`
   * is false then.
   */
  method BuildContents(data: seq<Entry>, trainingCount: nat) returns (complete: bool, train: string, valid: string)
    ensures complete <==> trainingCount <= |data|
    ensures complete ==> train == Text(data[..trainingCount]) && valid == Text(data[trainingCount..])
  {
    train, valid := "", "";
    var i := 0;
    while i < trainingCount
      invariant i <= trainingCount && i <= |data|
      invariant train == Text(data[..i])
    {
      if i == |data| {
        return false, train, valid;
      }
      TextExtendPrefix(data, i);
      train := train + EntryLine(data[i]);
      i := i + 1;
    }
    i := trainingCount;
    while i < |data|
      invariant trainingCount <= i <= |data|
      invariant valid == Text(data[trainingCount..i])
    {
      TextExtend(data, trainingCount, i);
      valid := valid + EntryLine(data[i]);
      i := i + 1;
    }
    SliceToEnd(data, trainingCount);
    complete := true;
  }

  datatype ConversionError =
    | InvalidPercentage(reason: ArgumentError)
    | SourceUnreadable
    | EntryMissing(index: nat)

  /** What the script writes: two file names and their contents. */
  datatype Conversion = Conversion(trainName: string, validName: string, train: string, valid: string)

  /**
   * The whole script. `source` is the `data` array of the JSON file, or
   * None when it cannot be loaded; writing the two files is left to the
   * caller, which gets their names and contents.
   */
  method Convert(nameArg: Option<string>, percentageArg: Option<string>, source: Option<seq<Entry>>)
    returns (r: Result<Conversion, ConversionError>)
    ensures ValidatePercentage(PercentageArgument(percentageArg)).Err? ==>
      r == Err(InvalidPercentage(ValidatePercentage(PercentageArgument(percentageArg)).error))
    ensures ValidatePercentage(PercentageArgument(percentageArg)).Ok? && source.None? ==> r == Err(SourceUnreadable)
    ensures ValidatePercentage(PercentageArgument(percentageArg)).Ok? && source.Some? ==>
      var p := ValidatePercentage(PercentageArgument(percentageArg)).value;
      var data := source.value;
      var t := TrainingCount(|data|, p);
      var name := FileNameArgument(nameArg);
      if t > |data| then r == Err(EntryMissing(|data|))
      else r == Ok(Conversion(TrainFileName(name), ValidFileName(name), Text(data[..t]), Text(data[t..])))
  {
    var name := FileNameArgument(nameArg);
    var checked := ValidatePercentage(PercentageArgument(percentageArg));
    if checked.Err? {
      return Err(InvalidPercentage(checked.error));
    }
    var p := checked.value;
    var trainName, validName := TrainFileName(name), ValidFileName(name);
    if source.None? {
      return Err(SourceUnreadable);
    }
    var data := source.value;
    var t := TrainingCount(|data|, p);
    var complete, train, valid := BuildContents(data, t);
    if !complete {
      return Err(EntryMissing(|data|));
    }
    r := Ok(Conversion(trainName, validName, train, valid));
  }
}
