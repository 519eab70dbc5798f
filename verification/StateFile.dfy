/** The persisted controller state: the four-line body and its line parser. */
module StateFile {
  import opened Thermal
  import opened StateText

  /** What persists.  `T` is an instant at the file's resolution. */
  datatype Saved<T> = Saved(baseSpeed: real, lastSpeed: int, samples: int, lastUpdated: Option<T>)

  function Zero<T>(): Saved<T> { Saved(0.0, 0, 0, None) }

  // -------------------------------------------------------------------- writing

  function Entry(key: string, value: string): string { key + "=" + value + "\n" }

  function Body<T>(s: Saved<T>, now: T, format: T -> string): string {
    Entry("base_speed", FixedText(s.baseSpeed))
      + (Entry("last_speed", IntText(s.lastSpeed))
         + (Entry("samples", IntText(s.samples))
            + Entry("last_updated", format(if s.lastUpdated.Some? then s.lastUpdated.value else now))))
  }

  // -------------------------------------------------------------------- reading

  /** Key and value of a line; blanks, comments and lines without a key have none. */
  function Fields(raw: string): Option<(string, string)> {
    var line := TrimSpace(raw);
    if line == "" || line[0] == '#' then None
    else
      var eq := IndexOf(line, '=');
      if eq == 0 || eq == |line| then None
      else Some((line[..eq], Unquote(TrimSpace(line[eq + 1..]))))
  }

  function Assigned<T>(s: Saved<T>, key: string, val: string, parse: string -> Option<T>): Saved<T> {
    if key == "base_speed" then
      var f := ParseDecimal(val);
      if f.Some? then s.(baseSpeed := f.value) else s
    else if key == "last_speed" then
      var i := Atoi(val);
      if i.Some? then s.(lastSpeed := i.value) else s
    else if key == "samples" then
      var i := Atoi(val);
      if i.Some? then s.(samples := i.value) else s
    else if key == "last_updated" then
      var t := parse(val);
      if t.Some? then s.(lastUpdated := t) else s
    else s
  }

  function WithLine<T>(s: Saved<T>, raw: string, parse: string -> Option<T>): Saved<T> {
    var kv := Fields(raw);
    if kv.None? then s else Assigned(s, kv.value.0, kv.value.1, parse)
  }

  function WithLines<T>(s: Saved<T>, lines: seq<string>, parse: string -> Option<T>): Saved<T> {
    if lines == [] then s
    else WithLine(WithLines(s, lines[..|lines| - 1], parse), lines[|lines| - 1], parse)
  }

  function Parsed<T>(body: string, parse: string -> Option<T>): Saved<T> {
    WithLines(Zero(), Lines(body), parse)
  }

  method Read<T>(body: string, parse: string -> Option<T>) returns (s: Saved<T>)
    ensures s == Parsed(body, parse)
  {
    var lines := Lines(body);
    s := Saved(0.0, 0, 0, None);
    for i := 0 to |lines|
      invariant s == WithLines(Zero(), lines[..i], parse)
    {
      assert lines[..i + 1][..i] == lines[..i];
      var line := TrimSpace(lines[i]);
      if line == "" || line[0] == '#' {
        continue;
      }
      var eq := IndexOf(line, '=');
      if eq == 0 || eq == |line| {
        continue;
      }
      var key, val := line[..eq], Unquote(TrimSpace(line[eq + 1..]));
      s := Assigned(s, key, val, parse);
    }
    assert lines[..|lines|] == lines;
  }

  // ----------------------------------------------------------------- round trip

  /** The time format and parser are inverse, and instants print plainly. */
  ghost predicate TimeCodec<T(!new)>(format: T -> string, parse: string -> Option<T>) {
    forall t: T :: parse(format(t)) == Some(t) && Plain(format(t))
  }

  /** A key the parser reads back as it is. */
  predicate IsKey(key: string) {
    key != "" && !IsSpace(key[0]) && key[0] != '#' && '=' !in key && '\n' !in key
  }

  /** A line of a key and a value is split at the first equals sign. */
  lemma LineSplits(key: string, value: string)
    requires IsKey(key) && value != "" && !IsSpace(value[0]) && !IsSpace(value[|value| - 1])
    ensures Fields(key + "=" + value) == Some((key, Unquote(value)))
  {
    hide Unquote;
    var line := key + "=" + value;
    assert line[|line| - 1] == value[|value| - 1] && line[0] == key[0];
    Untrimmed(line);
    Untrimmed(value);
    IndexIs(line, '=', |key|);
    assert line[..|key|] == key && line[|key| + 1..] == value;
  }

  lemma Untrimmed(s: string)
    requires s != "" && !IsSpace(s[0]) && !IsSpace(s[|s| - 1])
    ensures TrimSpace(s) == s
  {
  }

  lemma EntryLine(key: string, value: string)
    requires IsKey(key) && Plain(value)
    ensures Lines(Entry(key, value)) == [key + "=" + value]
    ensures Fields(key + "=" + value) == Some((key, value))
  {
    hide Fields;
    var line := key + "=" + value;
    OneLine(line);
    assert line[|line| - 1] == value[|value| - 1];
    assert StripCR(line) == line;
    LineSplits(key, value);
    PlainSurvives(value);
  }

  /** A value in one pair of matching quotes is read as what is between them,
      spaces and further quotes included; and a plain value reads the same with
      quotes as without. */
  lemma QuotedReadsLikeBare(key: string, value: string, quote: char)
    requires IsKey(key) && (quote == '\"' || quote == '\'')
    ensures Fields(key + "=" + ([quote] + value + [quote])) == Some((key, value))
    ensures Plain(value) ==> Fields(key + "=" + ([quote] + value + [quote])) == Fields(key + "=" + value)
  {
    hide Fields;
    var quoted := [quote] + value + [quote];
    LineSplits(key, quoted);
    assert quoted[1..|quoted| - 1] == value;
    if Plain(value) {
      EntryLine(key, value);
    }
  }

  /** Space around a line is ignored. */
  lemma PaddingIsIgnored(left: string, line: string, right: string)
    requires AllSpace(left) && AllSpace(right)
    requires line != "" && !IsSpace(line[0]) && !IsSpace(line[|line| - 1])
    ensures Fields(left + line + right) == Fields(line)
  {
    assert left + line + right == left + (line + right);
    TrimsLeft(left, line + right);
    TrimsRight(line, right);
  }

  predicate AllSpace(s: string) { forall i :: 0 <= i < |s| ==> IsSpace(s[i]) }

  lemma {:induction false} TrimsLeft(left: string, rest: string)
    requires AllSpace(left) && rest != "" && !IsSpace(rest[0])
    ensures TrimLeft(left + rest) == rest
  {
    if left == "" {
      assert left + rest == rest;
    } else {
      assert (left + rest)[1..] == left[1..] + rest;
      TrimsLeft(left[1..], rest);
    }
  }

  lemma {:induction false} TrimsRight(line: string, right: string)
    requires AllSpace(right) && line != "" && !IsSpace(line[|line| - 1])
    ensures TrimRight(line + right) == line
  {
    if right == "" {
      assert line + right == line;
    } else {
      var n := |right| - 1;
      assert (line + right)[..|line + right| - 1] == line + right[..n];
      TrimsRight(line, right[..n]);
    }
  }

  lemma EntryEndsLine(key: string, value: string)
    ensures AtLineStart(Entry(key, value))
  {
  }

  lemma {:induction false} LinesOneByOne<T>(s: Saved<T>, a: seq<string>, line: string, parse: string -> Option<T>)
    ensures WithLines(s, a + [line], parse) == WithLine(WithLines(s, a, parse), line, parse)
  {
    assert (a + [line])[..|a|] == a;
  }

  /** Reading back what was written gives the same speed, samples and instant,
      and the base speed to four decimals. */
  lemma StateRoundTrip<T(!new)>(s: Saved<T>, now: T, format: T -> string, parse: string -> Option<T>)
    requires TimeCodec(format, parse)
    ensures Parsed(Body(s, now, format), parse)
         == Saved(Round4(s.baseSpeed), s.lastSpeed, s.samples,
                  Some(if s.lastUpdated.Some? then s.lastUpdated.value else now))
  {
    hide FixedText, IntText, Lines, Fields, Entry, Round4, ParseDecimal, Atoi, Plain, AtLineStart;
    var when := if s.lastUpdated.Some? then s.lastUpdated.value else now;
    var v1, v2, v3, v4 := FixedText(s.baseSpeed), IntText(s.lastSpeed), IntText(s.samples), format(when);
    FixedRoundTrip(s.baseSpeed);
    IntRoundTrip(s.lastSpeed);
    IntRoundTrip(s.samples);
    assert parse(v4) == Some(when) && Plain(v4);
    EntryLine("base_speed", v1);
    EntryLine("last_speed", v2);
    EntryLine("samples", v3);
    EntryLine("last_updated", v4);
    EntryEndsLine("base_speed", v1);
    EntryEndsLine("last_speed", v2);
    EntryEndsLine("samples", v3);
    LinesAppend(Entry("base_speed", v1),
                Entry("last_speed", v2) + (Entry("samples", v3) + Entry("last_updated", v4)));
    LinesAppend(Entry("last_speed", v2), Entry("samples", v3) + Entry("last_updated", v4));
    LinesAppend(Entry("samples", v3), Entry("last_updated", v4));
    var l1, l2, l3, l4 := "base_speed=" + v1, "last_speed=" + v2, "samples=" + v3, "last_updated=" + v4;
    FourLines(Zero<T>(), l1, l2, l3, l4, parse);
    KeysAsWritten(v1, v2, v3, v4);
  }

  lemma KeysAsWritten(v1: string, v2: string, v3: string, v4: string)
    ensures "base_speed" + "=" + v1 == "base_speed=" + v1
    ensures "last_speed" + "=" + v2 == "last_speed=" + v2
    ensures "samples" + "=" + v3 == "samples=" + v3
    ensures "last_updated" + "=" + v4 == "last_updated=" + v4
  {
    assert "base_speed" + "=" == "base_speed=" && "last_speed" + "=" == "last_speed=";
    assert "samples" + "=" == "samples=" && "last_updated" + "=" == "last_updated=";
  }

  lemma FourLines<T>(s: Saved<T>, l1: string, l2: string, l3: string, l4: string, parse: string -> Option<T>)
    ensures WithLines(s, [l1] + ([l2] + ([l3] + [l4])), parse)
         == WithLine(WithLine(WithLine(WithLine(s, l1, parse), l2, parse), l3, parse), l4, parse)
  {
    hide WithLine;
    LinesOneByOne(s, [], l1, parse);
    LinesOneByOne(s, [l1], l2, parse);
    LinesOneByOne(s, [l1, l2], l3, parse);
    LinesOneByOne(s, [l1, l2, l3], l4, parse);
    assert [] + [l1] == [l1] && [l1] + [l2] == [l1, l2] && [l1, l2] + [l3] == [l1, l2, l3];
    assert [l1] + ([l2] + ([l3] + [l4])) == [l1, l2, l3] + [l4];
  }

  // ----------------------------------------------------------- foreign lines

  /** A line the parser has no use for: blank, comment, keyless, or a key it
      does not know. */
  predicate Ignored(raw: string) {
    var kv := Fields(raw);
    kv.None? || kv.value.0 !in {"base_speed", "last_speed", "samples", "last_updated"}
  }

  lemma {:induction false} IgnoredLineInLines<T>(s: Saved<T>, a: seq<string>, line: string, b: seq<string>,
                                                 parse: string -> Option<T>)
    requires Ignored(line)
    ensures WithLines(s, a + [line] + b, parse) == WithLines(s, a + b, parse)
    decreases |b|
  {
    hide Fields;
    if b == [] {
      assert a + [line] + b == a + [line] && a + b == a;
      LinesOneByOne(s, a, line, parse);
    } else {
      hide WithLine;
      var n := |b| - 1;
      IgnoredLineInLines(s, a, line, b[..n], parse);
      assert a + [line] + b == (a + [line] + b[..n]) + [b[n]];
      assert a + b == (a + b[..n]) + [b[n]];
      LinesOneByOne(s, a + [line] + b[..n], b[n], parse);
      LinesOneByOne(s, a + b[..n], b[n], parse);
    }
  }

  /** Inserting an ignored line at any line boundary of any file changes nothing. */
  lemma ForeignLinesAreIgnored<T>(a: string, line: string, b: string, parse: string -> Option<T>)
    requires AtLineStart(a) && '\n' !in line && Ignored(StripCR(line))
    ensures Parsed(a + (line + "\n" + b), parse) == Parsed(a + b, parse)
  {
    hide Ignored, StripCR, Lines;
    OneLine(line);
    LinesAppend(a, b);
    LinesAppend(a, line + "\n" + b);
    LinesAppend(line + "\n", b);
    var mid := StripCR(line);
    assert Lines(a) + ([mid] + Lines(b)) == Lines(a) + [mid] + Lines(b);
    IgnoredLineInLines(Zero<T>(), Lines(a), mid, Lines(b), parse);
  }
}
