/** The plotting script's reader of benchmark tables: a text of lines where
  * a line holding "bits" opens a section keyed by its first token, and
  * each following data line adds an (x, y) pair to that section. */
module BenchmarkTable {
  import opened Common

  /** The x values and the y values of one section, index-aligned. */
  type Section = (seq<int>, seq<int>)
  type Table = map<int, Section>

  /** The exceptions the script can raise on a malformed text:
    * AttributeError (a data line before any section), IndexError (a
    * missing token), ValueError (a token int() rejects). */
  datatype ParseError = NoSection | MissingToken | NotInteger
  datatype Result<T> = Ok(value: T) | Err(error: ParseError)

  // ---------------------------------------------------------------------
  // Splitting the text into lines

  /** The lines joined back with a newline between neighbours. */
  function Join(lines: seq<string>): string
    requires |lines| > 0
  {
    if |lines| == 1 then lines[0] else Join(lines[..|lines| - 1]) + "\n" + lines[|lines| - 1]
  }

  /** A newline at the end of the text starts a new, empty line. */
  lemma JoinNewLine(r: seq<string>)
    requires |r| > 0
    ensures Join(r + [""]) == Join(r) + "\n"
  {
    assert (r + [""])[..|r|] == r;
  }

  /** Any other character at the end of the text extends the last line. */
  lemma JoinExtendLast(r: seq<string>, c: char)
    requires |r| > 0
    ensures Join(r[..|r| - 1] + [r[|r| - 1] + [c]]) == Join(r) + [c]
  {
    var n := |r| - 1;
    var r' := r[..n] + [r[n] + [c]];
    if n > 0 {
      assert r'[..n] == r[..n];
    }
  }

  /** text.split('\n'): the pieces between newlines, one more than there
    * are newlines; joining them back gives the text. */
  function SplitLines(text: string): (lines: seq<string>)
    ensures |lines| > 0 && Join(lines) == text
    ensures forall l <- lines :: '\n' !in l
  {
    if |text| == 0 then [""]
    else
      var r := SplitLines(text[..|text| - 1]);
      var c := text[|text| - 1];
      assert text == text[..|text| - 1] + [c];
      if c == '\n' then
        JoinNewLine(r);
        r + [""]
      else
        var n := |r| - 1;
        JoinExtendLast(r, c);
        assert r[n] in r;
        r[..n] + [r[n] + [c]]
  }

  // ---------------------------------------------------------------------
  // Words and integers

  /** The characters str.isspace() accepts. */
  predicate IsSpace(c: char)
  {
    c == ' ' || (9 <= c as int <= 13) || (28 <= c as int <= 31)
    || c as int == 0x85 || c as int == 0xA0 || c as int == 0x1680
    || (0x2000 <= c as int <= 0x200A) || c as int == 0x2028 || c as int == 0x2029
    || c as int == 0x202F || c as int == 0x205F || c as int == 0x3000
  }

  predicate NoSpace(w: string)
  {
    forall j :: 0 <= j < |w| ==> !IsSpace(w[j])
  }

  /** s with its leading whitespace removed. */
  function SkipSpaces(s: string): (r: string)
    ensures |r| <= |s| && r == s[|s| - |r|..]
    ensures |r| > 0 ==> !IsSpace(r[0])
  {
    if |s| > 0 && IsSpace(s[0]) then SkipSpaces(s[1..]) else s
  }

  /** What SkipSpaces removes is whitespace. */
  lemma {:induction false} SkippedAreSpaces(s: string)
    ensures forall i :: 0 <= i < |s| - |SkipSpaces(s)| ==> IsSpace(s[i])
  {
    if |s| > 0 && IsSpace(s[0]) {
      SkippedAreSpaces(s[1..]);
      forall i | 1 <= i < |s| - |SkipSpaces(s)| ensures IsSpace(s[i]) {
        assert s[i] == s[1..][i - 1];
      }
    }
  }

  /** The longest prefix of s without whitespace. */
  function WordAt(s: string): (w: string)
    ensures |w| <= |s|
    ensures |s| > 0 && !IsSpace(s[0]) ==> |w| > 0
  {
    if |s| == 0 || IsSpace(s[0]) then [] else [s[0]] + WordAt(s[1..])
  }

  /** WordAt takes a prefix free of whitespace. */
  lemma {:induction false} WordAtShape(s: string)
    ensures WordAt(s) == s[..|WordAt(s)|] && NoSpace(WordAt(s))
  {
    if |s| > 0 && !IsSpace(s[0]) {
      WordAtShape(s[1..]);
      var w := WordAt(s[1..]);
      assert WordAt(s) == [s[0]] + w;
      forall j | 0 <= j < |WordAt(s)| ensures !IsSpace(WordAt(s)[j]) {
        if j > 0 { assert WordAt(s)[j] == w[j - 1]; }
      }
    }
  }

  /** line.split(): the maximal runs of non-whitespace characters. */
  function Words(s: string): seq<string>
    decreases |s|
  {
    var t := SkipSpaces(s);
    if |t| == 0 then []
    else
      var w := WordAt(t);
      [w] + Words(t[|w|..])
  }

  /** Every word is nonempty and free of whitespace. */
  lemma {:induction false} WordsShape(s: string)
    ensures forall w <- Words(s) :: |w| > 0 && NoSpace(w)
    decreases |s|
  {
    var t := SkipSpaces(s);
    if |t| > 0 {
      var w := WordAt(t);
      WordAtShape(t);
      WordsShape(t[|w|..]);
    }
  }

  /** A line has no words exactly when it is all whitespace. */
  lemma WordsEmptyIff(s: string)
    ensures |Words(s)| == 0 <==> forall i :: 0 <= i < |s| ==> IsSpace(s[i])
  {
    var t := SkipSpaces(s);
    SkippedAreSpaces(s);
    if |t| > 0 {
      assert s[|s| - |t|] == t[0];
    }
  }

  predicate IsDigit(c: char)
  {
    '0' <= c <= '9'
  }

  predicate AllDigits(d: string)
  {
    |d| > 0 && forall i :: 0 <= i < |d| ==> IsDigit(d[i])
  }

  /** The decimal value of a string of digits. */
  function DigitsValue(d: string): nat
    requires forall i :: 0 <= i < |d| ==> IsDigit(d[i])
  {
    if |d| == 0 then 0
    else
      var c := d[|d| - 1];
      assert IsDigit(c);
      10 * DigitsValue(d[..|d| - 1]) + (c as int - '0' as int)
  }

  /** int(token): an optional sign followed by decimal digits. */
  function ParseInt(s: string): Option<int>
  {
    if |s| > 0 && (s[0] == '-' || s[0] == '+') then
      if AllDigits(s[1..]) then
        var v: int := DigitsValue(s[1..]);
        Some(if s[0] == '-' then -v else v)
      else None
    else if AllDigits(s) then Some(DigitsValue(s))
    else None
  }

  /** The decimal digits of n, as str(n) writes them. */
  function Decimal(n: nat): (d: string)
    ensures AllDigits(d)
  {
    if n < 10 then [('0' as int + n) as char]
    else Decimal(n / 10) + [('0' as int + n % 10) as char]
  }

  /** Reading back a written number gives the number. */
  lemma {:induction false} DecimalValue(n: nat)
    ensures DigitsValue(Decimal(n)) == n
  {
    if n >= 10 {
      DecimalValue(n / 10);
      assert Decimal(n)[..|Decimal(n)| - 1] == Decimal(n / 10);
    }
  }

  /** int() reads back str() of any integer. */
  lemma ParseIntDecimal(n: nat)
    ensures ParseInt(Decimal(n)) == Some(n)
    ensures ParseInt("-" + Decimal(n)) == Option<int>.Some(-(n as int))
    ensures ParseInt("+" + Decimal(n)) == Some(n)
  {
    DecimalValue(n);
    assert ("-" + Decimal(n))[1..] == Decimal(n);
    assert ("+" + Decimal(n))[1..] == Decimal(n);
  }

  // ---------------------------------------------------------------------
  // Classifying lines

  /** w occurs in s (Python's `w in s` on strings). */
  predicate Contains(s: string, w: string)
    decreases |s|
  {
    |w| <= |s| && (s[..|w|] == w || (|s| > 0 && Contains(s[1..], w)))
  }

  /** A string containing w holds w's first character somewhere. */
  lemma {:induction false} ContainsFirst(s: string, w: string)
    requires Contains(s, w) && |w| > 0
    ensures exists i :: 0 <= i < |s| && s[i] == w[0]
    decreases |s|
  {
    if s[..|w|] != w {
      ContainsFirst(s[1..], w);
      var i :| 0 <= i < |s[1..]| && s[1..][i] == w[0];
      assert s[i + 1] == w[0];
    } else {
      assert s[0] == w[0];
    }
  }

  /** An empty line, or one mentioning "time": passed over. */
  predicate Skipped(line: string)
  {
    line == "" || Contains(line, "time")
  }

  /** A line that opens a section. */
  predicate IsMarker(line: string)
  {
    !Skipped(line) && Contains(line, "bits")
  }

  /** A data line: neither passed over nor a section marker. */
  predicate IsData(line: string)
  {
    !Skipped(line) && !Contains(line, "bits")
  }

  /** A line holding "bits" has at least one word. */
  lemma MarkerHasWord(line: string)
    requires Contains(line, "bits")
    ensures |Words(line)| > 0
  {
    ContainsFirst(line, "bits");
    var i :| 0 <= i < |line| && line[i] == 'b';
    assert !IsSpace(line[i]);
    WordsEmptyIff(line);
  }

  /** The key a marker line opens, when its first word is an integer. */
  function KeyOf(line: string): (k: Option<int>)
    ensures k.Some? ==> IsMarker(line)
  {
    if IsMarker(line) then MarkerHasWord(line); ParseInt(Words(line)[0]) else None
  }

  /** The (x, y) pair of a data line whose first two words are integers. */
  function DataPair(line: string): Option<(int, int)>
  {
    var ws := Words(line);
    if |ws| >= 2 && ParseInt(ws[0]).Some? && ParseInt(ws[1]).Some? then
      Some((ParseInt(ws[0]).value, ParseInt(ws[1]).value))
    else None
  }

  // ---------------------------------------------------------------------
  // Reading line by line

  /** The open section: its key and the pairs read so far. */
  datatype Open = Open(key: int, xs: seq<int>, ys: seq<int>)
  /** The sealed sections and the open one, if any. */
  datatype Scan = Scan(data: Table, open: Option<Open>)

  const Start: Scan := Scan(map[], None)

  /** add_bits(): the open section written under its key, over any earlier
    * section with the same key. */
  function Seal(sc: Scan): Table
  {
    match sc.open
    case None => sc.data
    case Some(o) => sc.data[o.key := (o.xs, o.ys)]
  }

  /** One pass of the loop body over a line. */
  function Step(sc: Scan, line: string): Result<Scan>
  {
    if Skipped(line) then Ok(sc)
    else if Contains(line, "bits") then
      MarkerHasWord(line);
      match ParseInt(Words(line)[0])
      case None => Err(NotInteger)
      case Some(k) => Ok(Scan(Seal(sc), Some(Open(k, [], []))))
    else
      var ws := Words(line);
      if sc.open.None? then Err(NoSection)
      else if |ws| == 0 then Err(MissingToken)
      else if ParseInt(ws[0]).None? then Err(NotInteger)
      else if |ws| == 1 then Err(MissingToken)
      else if ParseInt(ws[1]).None? then Err(NotInteger)
      else
        var o := sc.open.value;
        Ok(Scan(sc.data, Some(Open(o.key, o.xs + [ParseInt(ws[0]).value], o.ys + [ParseInt(ws[1]).value]))))
  }

  /** The loop over lines from a given state, stopping at the first error. */
  function RunFrom(sc: Scan, lines: seq<string>): Result<Scan>
    decreases |lines|
  {
    if |lines| == 0 then Ok(sc)
    else match Step(sc, lines[0])
      case Err(e) => Err(e)
      case Ok(next) => RunFrom(next, lines[1..])
  }

  /** parse_data on the lines of a file: the loop, then the last add_bits(). */
  function Parse(lines: seq<string>): Result<Table>
  {
    match RunFrom(Start, lines)
    case Err(e) => Err(e)
    case Ok(sc) => Ok(Seal(sc))
  }

  // ---------------------------------------------------------------------
  // What the reading defines

  /** The rest of a run after the first part of the lines. */
  function Then(r: Result<Scan>, lines: seq<string>): Result<Scan>
  {
    match r
    case Err(e) => Err(e)
    case Ok(sc) => RunFrom(sc, lines)
  }

  /** The run over a nonempty list of lines: one step, then the rest. */
  lemma RunCons(sc: Scan, lines: seq<string>)
    requires |lines| > 0
    ensures RunFrom(sc, lines) == Then(Step(sc, lines[0]), lines[1..])
  {
  }

  /** Reading a + b is reading a, then b from where a left off. */
  lemma {:induction false} RunAppend(sc: Scan, a: seq<string>, b: seq<string>)
    ensures RunFrom(sc, a + b) == Then(RunFrom(sc, a), b)
    decreases |a|
  {
    if |a| > 0 {
      assert (a + b)[0] == a[0] && (a + b)[1..] == a[1..] + b;
      RunCons(sc, a + b);
      RunCons(sc, a);
      var r := Step(sc, a[0]);
      if r.Ok? {
        RunAppend(r.value, a[1..], b);
      }
    } else {
      assert a + b == b;
    }
  }

  /** Passed-over lines change nothing. */
  lemma {:induction false} SkippedPrefix(sc: Scan, a: seq<string>, b: seq<string>)
    requires forall i :: 0 <= i < |a| ==> Skipped(a[i])
    ensures RunFrom(sc, a + b) == RunFrom(sc, b)
    decreases |a|
  {
    if |a| > 0 {
      assert (a + b)[0] == a[0] && (a + b)[1..] == a[1..] + b;
      RunCons(sc, a + b);
      assert Step(sc, a[0]) == Ok(sc);
      SkippedPrefix(sc, a[1..], b);
    } else {
      assert a + b == b;
    }
  }

  /** An empty line, or any line mentioning "time" (even one that also
    * mentions "bits"), can be removed without changing the result. */
  lemma SkippedLineIgnored(pre: seq<string>, line: string, post: seq<string>)
    requires Skipped(line)
    ensures Parse(pre + [line] + post) == Parse(pre + post)
  {
    assert pre + [line] + post == pre + ([line] + post);
    RunAppend(Start, pre, [line] + post);
    RunAppend(Start, pre, post);
    if RunFrom(Start, pre).Ok? {
      SkippedPrefix(RunFrom(Start, pre).value, [line], post);
    }
  }

  /** A text of passed-over lines only, the empty file among them, gives
    * the empty table. */
  lemma AllSkippedEmpty(lines: seq<string>)
    requires forall i :: 0 <= i < |lines| ==> Skipped(lines[i])
    ensures Parse(lines) == Ok(map[])
    ensures Parse(SplitLines("")) == Ok(map[])
  {
    SkippedPrefix(Start, lines, []);
    assert lines + [] == lines;
    SkippedPrefix(Start, [""], []);
    assert [""] + [] == [""];
  }

  /** A data line before any marker fails with NoSection. */
  lemma DataBeforeMarkerFails(lines: seq<string>, j: nat)
    requires j < |lines| && IsData(lines[j])
    requires forall i :: 0 <= i < j ==> Skipped(lines[i])
    ensures Parse(lines) == Err(NoSection)
  {
    assert lines == lines[..j] + lines[j..];
    SkippedPrefix(Start, lines[..j], lines[j..]);
    assert lines[j..][0] == lines[j];
  }

  // Well-formed texts

  /** A line the loop accepts: passed over, a marker with an integer key,
    * or a data line whose first two words are integers. */
  predicate LineOk(line: string)
  {
    Skipped(line) || KeyOf(line).Some? || (IsData(line) && DataPair(line).Some?)
  }

  /** Every line is accepted and no data line comes before the first
    * marker (started: a marker has been seen). */
  predicate WellFormed(started: bool, lines: seq<string>)
    decreases |lines|
  {
    |lines| == 0
    || (LineOk(lines[0]) && (IsData(lines[0]) ==> started)
        && WellFormed(started || IsMarker(lines[0]), lines[1..]))
  }

  /** One line is accepted exactly when it is well formed, and a marker
    * opens a section. */
  lemma StepOk(sc: Scan, line: string)
    ensures Step(sc, line).Ok? <==> LineOk(line) && (IsData(line) ==> sc.open.Some?)
    ensures Step(sc, line).Ok? ==> (Step(sc, line).value.open.Some? <==> sc.open.Some? || IsMarker(line))
  {
  }

  lemma {:induction false} RunOkIff(sc: Scan, lines: seq<string>)
    ensures RunFrom(sc, lines).Ok? <==> WellFormed(sc.open.Some?, lines)
    decreases |lines|
  {
    if |lines| > 0 {
      StepOk(sc, lines[0]);
      if Step(sc, lines[0]).Ok? {
        RunOkIff(Step(sc, lines[0]).value, lines[1..]);
      }
    }
  }

  /** The parse succeeds exactly on well-formed texts: it fails on a data
    * line before any marker, on a line with fewer than two words and on a
    * word int() rejects. */
  lemma ParseOkIff(lines: seq<string>)
    ensures Parse(lines).Ok? <==> WellFormed(false, lines)
  {
    RunOkIff(Start, lines);
  }

  // Keys and sections

  /** The keys the marker lines open. */
  function MarkerKeys(lines: seq<string>): set<int>
    decreases |lines|
  {
    if |lines| == 0 then {}
    else (if KeyOf(lines[0]).Some? then {KeyOf(lines[0]).value} else {}) + MarkerKeys(lines[1..])
  }

  /** One line adds the key it opens, if any, and no other. */
  lemma StepKeys(sc: Scan, line: string)
    requires Step(sc, line).Ok?
    ensures Seal(Step(sc, line).value).Keys
            == Seal(sc).Keys + (if KeyOf(line).Some? then {KeyOf(line).value} else {})
  {
    if IsMarker(line) {
      StepMarker(sc, line);
    } else if IsData(line) {
      StepData(sc, line);
    }
  }

  lemma {:induction false} RunKeys(sc: Scan, lines: seq<string>)
    requires RunFrom(sc, lines).Ok?
    ensures Seal(RunFrom(sc, lines).value).Keys == Seal(sc).Keys + MarkerKeys(lines)
    decreases |lines|
  {
    if |lines| > 0 {
      RunCons(sc, lines);
      StepKeys(sc, lines[0]);
      RunKeys(Step(sc, lines[0]).value, lines[1..]);
    }
  }

  /** The table's keys are exactly the keys of the marker lines. */
  lemma KeysAreMarkers(lines: seq<string>)
    requires Parse(lines).Ok?
    ensures Parse(lines).value.Keys == MarkerKeys(lines)
  {
    RunKeys(Start, lines);
  }

  /** Every section and the open one hold as many x values as y values. */
  predicate Aligned(sc: Scan)
  {
    (forall k :: k in sc.data ==> |sc.data[k].0| == |sc.data[k].1|)
    && (sc.open.Some? ==> |sc.open.value.xs| == |sc.open.value.ys|)
  }

  lemma StepAligned(sc: Scan, line: string)
    requires Aligned(sc) && Step(sc, line).Ok?
    ensures Aligned(Step(sc, line).value)
  {
    if IsMarker(line) {
      StepMarker(sc, line);
      var t := Seal(sc);
      forall k | k in t ensures |t[k].0| == |t[k].1| {
      }
    } else if IsData(line) {
      StepData(sc, line);
    }
  }

  lemma {:induction false} RunAligned(sc: Scan, lines: seq<string>)
    requires Aligned(sc) && RunFrom(sc, lines).Ok?
    ensures Aligned(RunFrom(sc, lines).value)
    decreases |lines|
  {
    if |lines| > 0 {
      RunCons(sc, lines);
      StepAligned(sc, lines[0]);
      RunAligned(Step(sc, lines[0]).value, lines[1..]);
    }
  }

  /** xs and ys stay index-aligned in every section of the result. */
  lemma SectionsAligned(lines: seq<string>)
    requires Parse(lines).Ok?
    ensures forall k :: k in Parse(lines).value ==> |Parse(lines).value[k].0| == |Parse(lines).value[k].1|
  {
    RunAligned(Start, lines);
  }

  /** A data line read into an open section appends its pair. */
  lemma StepData(sc: Scan, line: string)
    requires IsData(line) && Step(sc, line).Ok?
    ensures sc.open.Some? && DataPair(line).Some?
    ensures Step(sc, line).value == Scan(sc.data, Some(Open(sc.open.value.key,
              sc.open.value.xs + [DataPair(line).value.0], sc.open.value.ys + [DataPair(line).value.1])))
  {
  }

  /** A marker line seals the open section and opens an empty one under its
    * key. */
  lemma StepMarker(sc: Scan, line: string)
    requires IsMarker(line) && Step(sc, line).Ok?
    ensures KeyOf(line).Some? && Step(sc, line).value == Scan(Seal(sc), Some(Open(KeyOf(line).value, [], [])))
  {
  }

  /** The pairs of the data lines among lines, in order. */
  function Pairs(lines: seq<string>): Section
    decreases |lines|
  {
    if |lines| == 0 then ([], [])
    else
      var rest := Pairs(lines[1..]);
      if IsData(lines[0]) && DataPair(lines[0]).Some? then
        ([DataPair(lines[0]).value.0] + rest.0, [DataPair(lines[0]).value.1] + rest.1)
      else rest
  }

  /** Reading lines without markers into an open section appends their
    * pairs to it. */
  lemma {:induction false} BodyAppends(d: Table, k: int, xs: seq<int>, ys: seq<int>, body: seq<string>)
    requires forall l <- body :: !IsMarker(l)
    requires RunFrom(Scan(d, Some(Open(k, xs, ys))), body).Ok?
    ensures RunFrom(Scan(d, Some(Open(k, xs, ys))), body).value
            == Scan(d, Some(Open(k, xs + Pairs(body).0, ys + Pairs(body).1)))
    decreases |body|
  {
    var sc := Scan(d, Some(Open(k, xs, ys)));
    if |body| > 0 {
      var line := body[0];
      var rest := Pairs(body[1..]);
      RunCons(sc, body);
      assert line in body;
      if IsData(line) {
        StepData(sc, line);
        var p := DataPair(line).value;
        var next := Scan(d, Some(Open(k, xs + [p.0], ys + [p.1])));
        assert Step(sc, line) == Ok(next);
        assert RunFrom(sc, body) == RunFrom(next, body[1..]);
        BodyAppends(d, k, xs + [p.0], ys + [p.1], body[1..]);
        assert Pairs(body) == ([p.0] + rest.0, [p.1] + rest.1);
        AppendAssoc(xs, [p.0], rest.0);
        AppendAssoc(ys, [p.1], rest.1);
      } else {
        assert Step(sc, line) == Ok(sc) && Pairs(body) == rest;
        BodyAppends(d, k, xs, ys, body[1..]);
      }
    } else {
      assert xs + [] == xs && ys + [] == ys;
    }
  }

  /** One line that opens no k keeps the section sealed under k. */
  lemma StepKeeps(sc: Scan, line: string, k: int, v: Section)
    requires k in sc.data && sc.data[k] == v && (sc.open.Some? ==> sc.open.value.key != k)
    requires KeyOf(line) != Some(k) && Step(sc, line).Ok?
    ensures var next := Step(sc, line).value;
      k in next.data && next.data[k] == v && (next.open.Some? ==> next.open.value.key != k)
  {
    if IsMarker(line) {
      StepMarker(sc, line);
    } else if IsData(line) {
      StepData(sc, line);
    }
  }

  /** A section sealed under k survives later lines that open no k. */
  lemma {:induction false} KeyKept(sc: Scan, lines: seq<string>, k: int, v: Section)
    requires k in sc.data && sc.data[k] == v && (sc.open.Some? ==> sc.open.value.key != k)
    requires forall l <- lines :: KeyOf(l) != Some(k)
    requires RunFrom(sc, lines).Ok?
    ensures k in Seal(RunFrom(sc, lines).value) && Seal(RunFrom(sc, lines).value)[k] == v
    decreases |lines|
  {
    if |lines| > 0 {
      RunCons(sc, lines);
      assert lines[0] in lines;
      StepKeeps(sc, lines[0], k, v);
      KeyKept(Step(sc, lines[0]).value, lines[1..], k, v);
    }
  }

  /** The section under a key holds exactly the pairs of the data lines
    * between the last marker opening that key and the next marker or the
    * end of the text: a later marker with the same key overwrites it. */
  lemma SectionContents(pre: seq<string>, m: string, body: seq<string>, post: seq<string>, k: int)
    requires Parse(pre + [m] + body + post).Ok?
    requires KeyOf(m) == Some(k)
    requires forall l <- body :: !IsMarker(l)
    requires |post| == 0 || IsMarker(post[0])
    requires forall l <- post :: KeyOf(l) != Some(k)
    ensures k in Parse(pre + [m] + body + post).value
    ensures Parse(pre + [m] + body + post).value[k] == Pairs(body)
  {
    var lines := pre + [m] + body + post;
    assert lines == pre + ([m] + (body + post));
    RunAppend(Start, pre, [m] + (body + post));
    var s1 := RunFrom(Start, pre).value;
    assert ([m] + (body + post))[0] == m && ([m] + (body + post))[1..] == body + post;
    var s2 := Scan(Seal(s1), Some(Open(k, [], [])));
    RunCons(s1, [m] + (body + post));
    StepMarker(s1, m);
    RunAppend(s2, body, post);
    BodyAppends(Seal(s1), k, [], [], body);
    var s3 := Scan(Seal(s1), Some(Open(k, Pairs(body).0, Pairs(body).1)));
    assert [] + Pairs(body).0 == Pairs(body).0 && [] + Pairs(body).1 == Pairs(body).1;
    assert RunFrom(s2, body) == Ok(s3);
    if |post| > 0 {
      RunCons(s3, post);
      StepMarker(s3, post[0]);
      assert post[0] in post;
      KeyKept(Step(s3, post[0]).value, post[1..], k, Pairs(body));
    }
  }

  /** The open section the script's bits, xs and ys describe. */
  function OpenOf(bits: Option<int>, xs: Option<seq<int>>, ys: Option<seq<int>>): Option<Open>
  {
    if bits.Some? && xs.Some? && ys.Some? then Some(Open(bits.value, xs.value, ys.value)) else None
  }

  /** parse_data(filename), given the file's text: the same answer as
    * reading its lines one by one. */
  method ParseData(text: string) returns (r: Result<Table>)
    ensures r == Parse(SplitLines(text))
  {
    var data: Table := map[];
    var lines := SplitLines(text);
    var bits: Option<int> := None;
    var xs: Option<seq<int>> := None;
    var ys: Option<seq<int>> := None;
    for i := 0 to |lines|
      invariant bits.Some? == xs.Some? == ys.Some?
      invariant RunFrom(Start, lines) == RunFrom(Scan(data, OpenOf(bits, xs, ys)), lines[i..])
    {
      var line := lines[i];
      assert lines[i..][1..] == lines[i + 1..];
      if line == "" || Contains(line, "time") {
        continue;
      } else if Contains(line, "bits") {
        if bits.Some? {
          data := data[bits.value := (xs.value, ys.value)];
        }
        MarkerHasWord(line);
        var k := ParseInt(Words(line)[0]);
        if k.None? {
          return Err(NotInteger);
        }
        bits := Some(k.value);
        xs := Some([]);
        ys := Some([]);
      } else {
        var split := Words(line);
        if xs.None? {
          return Err(NoSection);
        }
        if |split| == 0 {
          return Err(MissingToken);
        }
        var x := ParseInt(split[0]);
        if x.None? {
          return Err(NotInteger);
        }
        xs := Some(xs.value + [x.value]);
        if |split| == 1 {
          return Err(MissingToken);
        }
        var y := ParseInt(split[1]);
        if y.None? {
          return Err(NotInteger);
        }
        ys := Some(ys.value + [y.value]);
      }
    }
    if bits.Some? {
      data := data[bits.value := (xs.value, ys.value)];
    }
    return Ok(data);
  }
}
