/** The small text encoders: the `.LIN` line name, image file names,
    GTFS arrival-time normalisation, DBF field types and the CUBE
    attribute-rename text. */
module Encoders {
  import opened Wrappers
  import opened Seqs
  import opened Tables

  // ---------------------------------------------------------------------
  // `set_line_name`: at most ten characters, the head sign cut to make room
  // for '_' and the last three characters of the shape id.

  /** `s[-3:]`. */
  function LastThree(s: string): (t: string)
    ensures |t| == (if |s| < 3 then |s| else 3) && t == s[|s| - |t|..]
  {
    if |s| <= 3 then s else s[|s| - 3..]
  }

  function SetLineName(headSign: string, shapeId: string): (name: string)
    ensures |name| <= 10
    ensures var tail := LastThree(shapeId);
      && |name| > |tail| && name[|name| - |tail|..] == tail && name[|name| - |tail| - 1] == '_'
      && name[..|name| - |tail| - 1] <= headSign
    ensures |headSign| + |LastThree(shapeId)| < 10 ==> name[..|name| - |LastThree(shapeId)| - 1] == headSign
    ensures |headSign| + |LastThree(shapeId)| >= 10 ==> |name| == 10
  {
    var tail := LastThree(shapeId);
    var room := 10 - |tail| - 1;
    var head := if |headSign| <= room then headSign else headSign[..room];
    var name := head + "_" + tail;
    assert |name| == |head| + 1 + |tail| && name[..|head|] == head;
    assert name[|name| - |tail|..] == tail && name[|head|] == '_';
    name
  }

  /** Shapes whose ids end differently get different line names, whatever
      their head signs. */
  lemma LineNamesDistinct(h1: string, s1: string, h2: string, s2: string)
    requires |s1| >= 3 && |s2| >= 3 && LastThree(s1) != LastThree(s2)
    ensures SetLineName(h1, s1) != SetLineName(h2, s2)
  {
    var n1, n2 := SetLineName(h1, s1), SetLineName(h2, s2);
    assert n1[|n1| - 3..] == LastThree(s1);
    assert n2[|n2| - 3..] == LastThree(s2);
  }

  // ---------------------------------------------------------------------
  // `valid_filename_alphanumeric_spaces`: keeps letters, digits, white
  // space and '.', in order.

  predicate IsAsciiAlnum(c: char) {
    ('0' <= c <= '9') || ('a' <= c <= 'z') || ('A' <= c <= 'Z')
  }

  /** Python's `str.isspace` on ASCII: space, tab, line feed, vertical tab,
      form feed, carriage return and the separators 0x1C-0x1F. */
  predicate IsSpace(c: char) {
    c == ' ' || ('\t' <= c <= '\r') || (28 as char <= c <= 31 as char)
  }

  predicate FileNameChar(c: char) {
    IsAsciiAlnum(c) || IsSpace(c) || c == '.'
  }

  function SanitizeFileName(name: string): (r: string)
    ensures |r| <= |name|
    ensures forall c :: c in r <==> c in name && FileNameChar(c)
    ensures '/' !in r && '\\' !in r && ':' !in r
  {
    Filter(name, FileNameChar)
  }

  /** Sanitising an already sanitised name changes nothing. */
  lemma SanitizeIdempotent(name: string)
    ensures SanitizeFileName(SanitizeFileName(name)) == SanitizeFileName(name)
  {
    var r := SanitizeFileName(name);
    assert forall i :: 0 <= i < |r| ==> r[i] in r;
    FilterAll(r, FileNameChar);
  }

  /** Characters are dropped, never reordered: sanitising a concatenation
      concatenates the sanitised parts. */
  lemma SanitizeAppend(a: string, b: string)
    ensures SanitizeFileName(a + b) == SanitizeFileName(a) + SanitizeFileName(b)
  {
    FilterAppend(a, b, FileNameChar);
  }

  // ---------------------------------------------------------------------
  // Arrival times: `HH:MM:SS` text; an hour of 24 or more (a trip running
  // past midnight) is brought back by 24 hours.

  datatype Clock = Clock(h: nat, m: nat, s: nat)

  predicate ValidClock(c: Clock) {
    c.h < 24 && c.m < 60 && c.s < 60
  }

  function Seconds(c: Clock): nat {
    c.h * 3600 + c.m * 60 + c.s
  }

  /** Two-digit zero-padded text (`%H`, `%M`, `%S`). */
  function Pad2(n: nat): (t: string)
    requires n < 100
    ensures |t| == 2 && IsDigit(t[0]) && IsDigit(t[1])
  {
    [DigitChar(n / 10), DigitChar(n % 10)]
  }

  function FormatClock(c: Clock): (t: string)
    requires ValidClock(c)
    ensures |t| == 8 && t[2] == ':' && t[5] == ':'
  {
    Pad2(c.h) + ":" + Pad2(c.m) + ":" + Pad2(c.s)
  }

  function DigitValue(c: char): nat
    requires IsDigit(c)
  {
    (c as int - '0' as int) as nat
  }

  /** Reads `HH:MM:SS` text back. */
  function ParseClock(t: string): (r: Option<Clock>)
    ensures r.Some? ==> |t| == 8
  {
    if |t| == 8 && t[2] == ':' && t[5] == ':'
       && IsDigit(t[0]) && IsDigit(t[1]) && IsDigit(t[3]) && IsDigit(t[4]) && IsDigit(t[6]) && IsDigit(t[7])
    then Some(Clock(DigitValue(t[0]) * 10 + DigitValue(t[1]),
                    DigitValue(t[3]) * 10 + DigitValue(t[4]),
                    DigitValue(t[6]) * 10 + DigitValue(t[7])))
    else None
  }

  /** The arrival-time normalisation: the fields of the stripped text; an
      hour of 24 or more loses 24 hours; a time the date parser rejects
      (minutes or seconds past 59, or an hour still past 23) is an error. */
  function NormalizeArrival(t: Clock): (r: Result<string>)
    ensures r.Ok? <==> t.h < 48 && t.m < 60 && t.s < 60
    ensures r.Err? ==> r.fault == BadTime
    ensures r.Ok? ==> ParseClock(r.value) == Some(Clock(if t.h < 24 then t.h else t.h - 24, t.m, t.s))
  {
    var h := if t.h < 24 then t.h else t.h - 24;
    if h < 24 && t.m < 60 && t.s < 60 then
      var c := Clock(h, t.m, t.s);
      ClockRoundTrip(c);
      Ok(FormatClock(c))
    else Err(BadTime)
  }

  lemma ClockRoundTrip(c: Clock)
    requires ValidClock(c)
    ensures ParseClock(FormatClock(c)) == Some(c)
  {
    var t := FormatClock(c);
    assert t[0] == DigitChar(c.h / 10) && t[1] == DigitChar(c.h % 10);
    assert t[3] == DigitChar(c.m / 10) && t[4] == DigitChar(c.m % 10);
    assert t[6] == DigitChar(c.s / 10) && t[7] == DigitChar(c.s % 10);
  }

  /** Python's `<` on strings: lexicographic by code point. */
  predicate LexLess(a: string, b: string) {
    if a == [] then b != []
    else b != [] && (a[0] < b[0] || (a[0] == b[0] && LexLess(a[1..], b[1..])))
  }

  /** Behind equal-length prefixes that differ, what follows does not
      matter; behind equal ones, only what follows does. */
  lemma {:induction false} LexLessAppend(u: string, x: string, v: string, y: string)
    requires |u| == |v|
    ensures u != v ==> (LexLess(u + x, v + y) <==> LexLess(u, v))
    ensures u == v ==> (LexLess(u + x, v + y) <==> LexLess(x, y))
    decreases |u|
  {
    if |u| > 0 {
      assert (u + x)[0] == u[0] && (v + y)[0] == v[0];
      assert (u + x)[1..] == u[1..] + x && (v + y)[1..] == v[1..] + y;
      LexLessAppend(u[1..], x, v[1..], y);
      if u[0] == v[0] && u[1..] == v[1..] {
        assert u == [u[0]] + u[1..] && v == [v[0]] + v[1..];
      }
    } else {
      assert u + x == x && v + y == y;
    }
  }

  lemma Pad2Order(a: nat, b: nat)
    requires a < 100 && b < 100
    ensures LexLess(Pad2(a), Pad2(b)) <==> a < b
    ensures Pad2(a) == Pad2(b) <==> a == b
  {
    var pa, pb := Pad2(a), Pad2(b);
    assert pa[1..] == [DigitChar(a % 10)] && pb[1..] == [DigitChar(b % 10)];
    assert pa == [pa[0]] + pa[1..] && pb == [pb[0]] + pb[1..];
    assert LexLess(pa[1..][1..], pb[1..][1..]) == false;
    if pa == pb {
      assert a / 10 == b / 10 && a % 10 == b % 10;
    }
  }

  /** On normalised times, comparing the text compares the time of day:
      sorting and period filtering of the `HH:MM:SS` strings order trips
      by their arrival in seconds. */
  lemma ClockOrder(c: Clock, d: Clock)
    requires ValidClock(c) && ValidClock(d)
    ensures LexLess(FormatClock(c), FormatClock(d)) <==> Seconds(c) < Seconds(d)
  {
    var rc := ":" + Pad2(c.m) + ":" + Pad2(c.s);
    var rd := ":" + Pad2(d.m) + ":" + Pad2(d.s);
    assert FormatClock(c) == Pad2(c.h) + rc && FormatClock(d) == Pad2(d.h) + rd;
    LexLessAppend(Pad2(c.h), rc, Pad2(d.h), rd);
    Pad2Order(c.h, d.h);
    assert rc == ":" + (Pad2(c.m) + (":" + Pad2(c.s))) && rd == ":" + (Pad2(d.m) + (":" + Pad2(d.s)));
    LexLessAppend(":", Pad2(c.m) + (":" + Pad2(c.s)), ":", Pad2(d.m) + (":" + Pad2(d.s)));
    LexLessAppend(Pad2(c.m), ":" + Pad2(c.s), Pad2(d.m), ":" + Pad2(d.s));
    Pad2Order(c.m, d.m);
    LexLessAppend(":", Pad2(c.s), ":", Pad2(d.s));
    Pad2Order(c.s, d.s);
    SecondsOrder(c, d);
  }

  /** Seconds of the day order clocks lexicographically by hour, minute, second. */
  lemma SecondsOrder(c: Clock, d: Clock)
    requires ValidClock(c) && ValidClock(d)
    ensures Seconds(c) < Seconds(d) <==>
      c.h < d.h || (c.h == d.h && (c.m < d.m || (c.m == d.m && c.s < d.s)))
  {
    if c.h < d.h {
      assert c.h * 3600 + 3600 <= d.h * 3600;
    } else if c.h > d.h {
      assert d.h * 3600 + 3600 <= c.h * 3600;
    }
  }

  // ---------------------------------------------------------------------
  // `column_dbf_type`: the DBF field type of a column.

  /** A column as the DBF writer sees it: integers, the `str` texts of the
      floored values of a float column, strings, or any other dtype. */
  datatype Column =
    | IntColumn(values: seq<int>)
    | FloatColumn(floorTexts: seq<string>)
    | TextColumn(texts: seq<string>)
    | OtherColumn

  datatype FieldType = Numeric(width: nat, decimals: nat) | Character(width: nat)

  /** `str` of an integer. */
  function IntText(i: int): (t: string)
    ensures |t| > 0
  {
    if i < 0 then "-" + Decimal(-i) else Decimal(i)
  }

  /** `max(xs, key=len)`: the first of the longest. */
  function Longest(xs: seq<string>): (r: string)
    requires |xs| > 0
    ensures r in xs && forall x :: x in xs ==> |x| <= |r|
  {
    if |xs| == 1 then xs[0]
    else
      var rest := Longest(xs[1..]);
      assert forall x :: x in xs ==> x == xs[0] || x in xs[1..];
      if |rest| > |xs[0]| then rest else xs[0]
  }

  /** `s.split('.')[0]`. */
  function BeforeDot(s: string): (r: string)
    ensures r <= s && '.' !in r
    ensures |r| < |s| ==> s[|r|] == '.'
  {
    if s == [] || s[0] == '.' then [] else [s[0]] + BeforeDot(s[1..])
  }

  /** The while loop that trims the decimals of a float field: six
      decimals, fewer only as needed to fit 32 characters. */
  method FloatDecimals(intLength: nat) returns (decimals: nat)
    requires intLength < 32
    ensures decimals <= 6 && intLength + decimals + 1 <= 32
    ensures decimals == 6 || intLength + decimals + 1 == 32
  {
    decimals := 6;
    while intLength + decimals + 1 > 32
      invariant decimals <= 6
      invariant decimals == 6 || intLength + decimals + 1 >= 32
    {
      decimals := decimals - 1;
    }
  }

  method ColumnDbfType(col: Column) returns (r: Result<Option<FieldType>>, text: Option<string>)
    ensures r.Ok? ==> text == (if r.value.Some? then Some(FieldTypeText(r.value.value)) else None)
    ensures col.OtherColumn? ==> r == Ok(None)
    ensures col.IntColumn? ==> (r.Err? <==> col.values == [] || exists v :: v in col.values && |IntText(v)| > 32)
    ensures col.IntColumn? && r.Ok? ==> (
      && r.value.Some? && r.value.value.Numeric? && r.value.value.decimals == 0
      && r.value.value.width <= 32
      && (forall v :: v in col.values ==> |IntText(v)| <= r.value.value.width)
      && (exists v :: v in col.values && |IntText(v)| == r.value.value.width))
    ensures col.FloatColumn? ==> (r.Err? <==> col.floorTexts == [] || |BeforeDot(Longest(col.floorTexts))| >= 32)
    ensures col.FloatColumn? && r.Ok? ==> (
      && r.value.Some? && r.value.value.Numeric?
      && var f := r.value.value;
      && f.width == |BeforeDot(Longest(col.floorTexts))| + f.decimals + 1 && f.width <= 32 && f.decimals <= 6
      && (f.decimals == 6 || f.width == 32))
    ensures col.TextColumn? ==> (r.Err? <==> col.texts == [])
    ensures col.TextColumn? && r.Ok? ==> (
      && r.value.Some? && r.value.value.Character?
      && (forall t :: t in col.texts ==> |t| <= r.value.value.width)
      && (exists t :: t in col.texts && |t| == r.value.value.width))
    ensures r.Err? ==> r.fault == EmptySequence || r.fault == TooLong
  {
    text := None;
    match col
    case IntColumn(values) =>
      if values == [] {
        return Err(EmptySequence), None;
      }
      var texts := seq(|values|, i requires 0 <= i < |values| => IntText(values[i]));
      var longest := Longest(texts);
      assert forall v :: v in values ==> IntText(v) in texts by {
        forall v | v in values ensures IntText(v) in texts {
          var i :| 0 <= i < |values| && values[i] == v;
          assert texts[i] == IntText(v);
        }
      }
      var i :| 0 <= i < |texts| && texts[i] == longest;
      assert values[i] in values;
      if |longest| > 32 {
        return Err(TooLong), None;
      }
      r := Ok(Some(Numeric(|longest|, 0)));
      text := Some(FieldTypeText(r.value.value));
    case FloatColumn(floorTexts) =>
      if floorTexts == [] {
        return Err(EmptySequence), None;
      }
      var intLength := |BeforeDot(Longest(floorTexts))|;
      if intLength >= 32 {
        return Err(TooLong), None;
      }
      var decimals := FloatDecimals(intLength);
      r := Ok(Some(Numeric(intLength + decimals + 1, decimals)));
      text := Some(FieldTypeText(r.value.value));
    case TextColumn(texts) =>
      if texts == [] {
        return Err(EmptySequence), None;
      }
      r := Ok(Some(Character(|Longest(texts)|)));
      text := Some(FieldTypeText(r.value.value));
    case OtherColumn =>
      r := Ok(None);
  }

  /** The field type as the DBF library reads it: `N(width,decimals)` or
      `C(width)`. */
  function FieldTypeText(f: FieldType): (t: string)
    ensures |t| >= 4 && t[|t| - 1] == ')' && t[1] == '('
    ensures (t[0] == 'N') == f.Numeric? && (t[0] == 'C') == f.Character?
  {
    match f
    case Numeric(w, d) => "N(" + Decimal(w) + "," + Decimal(d) + ")"
    case Character(w) => "C(" + Decimal(w) + ")"
  }

  /** The number of leading digits. */
  function DigitRun(s: string): (n: nat)
    ensures n <= |s|
  {
    if s == [] || !IsDigit(s[0]) then 0 else 1 + DigitRun(s[1..])
  }

  lemma {:induction false} DigitRunOf(a: string, rest: string)
    requires forall i :: 0 <= i < |a| ==> IsDigit(a[i])
    requires rest != [] && !IsDigit(rest[0])
    ensures DigitRun(a + rest) == |a|
  {
    if a != [] {
      assert (a + rest)[1..] == a[1..] + rest;
      DigitRunOf(a[1..], rest);
    }
  }

  /** A run of digits followed by a non-digit separator splits one way only. */
  lemma SplitAtSeparator(a: string, b: string, a': string, b': string, c: char)
    requires forall i :: 0 <= i < |a| ==> IsDigit(a[i])
    requires forall i :: 0 <= i < |a'| ==> IsDigit(a'[i])
    requires !IsDigit(c) && a + [c] + b == a' + [c] + b'
    ensures a == a' && b == b'
  {
    var s := a + [c] + b;
    assert s == a + ([c] + b) && s == a' + ([c] + b');
    DigitRunOf(a, [c] + b);
    DigitRunOf(a', [c] + b');
    assert a == s[..|a|] && a' == s[..|a'|];
    assert b == s[|a| + 1..] && b' == s[|a'| + 1..];
  }

  /** The field-type text determines the field type: `N(w,d)` and `C(w)`
      can be read back. */
  lemma FieldTypeTextInjective(f: FieldType, g: FieldType)
    requires FieldTypeText(f) == FieldTypeText(g)
    ensures f == g
  {
    var t := FieldTypeText(f);
    if f.Numeric? {
      assert g.Numeric?;
      var inner := t[2..|t| - 1];
      assert inner == Decimal(f.width) + [','] + Decimal(f.decimals);
      assert inner == Decimal(g.width) + [','] + Decimal(g.decimals);
      SplitAtSeparator(Decimal(f.width), Decimal(f.decimals), Decimal(g.width), Decimal(g.decimals), ',');
      DecimalInjective(f.width, g.width);
      DecimalInjective(f.decimals, g.decimals);
    } else {
      assert g.Character?;
      assert t[2..|t| - 1] == Decimal(f.width) == Decimal(g.width);
      DecimalInjective(f.width, g.width);
    }
  }

  // ---------------------------------------------------------------------
  // `write_net_attributes_renaming_file`: the text naming the DBF input and
  // renaming every column whose name DBF would cut at ten characters.

  function Upper(s: string): (u: string)
    ensures |u| == |s|
  {
    seq(|s|, i requires 0 <= i < |s| => if 'a' <= s[i] <= 'z' then (s[i] as int - 32) as char else s[i])
  }

  function RenameHeader(dbfName: string, kind: string): string {
    "FILEI " + Upper(kind) + "I[1] = \"" + dbfName + "\""
  }

  /** `{c[:10]}-{c}, ` for a column name longer than ten characters,
      nothing for any other. */
  function EntryOf(c: string): string {
    if |c| > 10 then c[..10] + "-" + c + ", " else ""
  }

  /** The entries of the long column names, in column order. */
  function RenameEntries(cols: seq<string>): string {
    if cols == [] then [] else EntryOf(cols[0]) + RenameEntries(cols[1..])
  }

  /** There are entries exactly when some column name is longer than ten. */
  lemma {:induction false} EntriesEmptyIff(cols: seq<string>)
    ensures (RenameEntries(cols) == []) <==> forall c :: c in cols ==> |c| <= 10
  {
    if cols != [] {
      assert forall c :: c in cols <==> c == cols[0] || c in cols[1..];
      EntriesEmptyIff(cols[1..]);
    }
  }

  lemma {:induction false} EntriesEndWithSeparator(cols: seq<string>)
    requires RenameEntries(cols) != []
    ensures var e := RenameEntries(cols); |e| >= 2 && e[|e| - 2..] == ", "
  {
    var rest := RenameEntries(cols[1..]);
    if rest != [] {
      EntriesEndWithSeparator(cols[1..]);
      assert RenameEntries(cols)[|RenameEntries(cols)| - 2..] == rest[|rest| - 2..];
    }
  }

  /** The text as the source builds it: ", RENAME=" and the entries, then
      the last two characters cut off whenever there is any column. */
  function RenameTextAsWritten(cols: seq<string>, dbfName: string, kind: string): (t: string)
    ensures |cols| == 0 ==> t == RenameHeader(dbfName, kind)
  {
    var h := RenameHeader(dbfName, kind);
    if |cols| == 0 then h
    else
      var text := h + ", RENAME=" + RenameEntries(cols);
      text[..|text| - 2]
  }

  lemma EntriesFrom(cols: seq<string>, i: nat)
    requires i < |cols|
    ensures RenameEntries(cols[i..]) == EntryOf(cols[i]) + RenameEntries(cols[i + 1..])
    ensures |cols[i]| <= 10 ==> RenameEntries(cols[i..]) == RenameEntries(cols[i + 1..])
  {
    assert cols[i..][1..] == cols[i + 1..];
  }

  /** The source's loop: appends the entry of each long column. */
  method AppendEntries(opening: string, cols: seq<string>) returns (text: string)
    ensures text == opening + RenameEntries(cols)
  {
    text := opening;
    var i := 0;
    assert cols[0..] == cols;
    while i < |cols|
      invariant 0 <= i <= |cols|
      invariant EntriesSoFar(opening, cols, text, i)
    {
      EntriesStep(opening, cols, text, i);
      if |cols[i]| > 10 {
        text := text + EntryOf(cols[i]);
      }
      i := i + 1;
    }
    assert cols[i..] == [];
    assert text + [] == text;
  }

  /** After `i` columns, the text and the entries of the remaining columns
      make up the whole text. */
  predicate EntriesSoFar(opening: string, cols: seq<string>, text: string, i: nat)
    requires i <= |cols|
  {
    text + RenameEntries(cols[i..]) == opening + RenameEntries(cols)
  }

  lemma EntriesStep(opening: string, cols: seq<string>, text: string, i: nat)
    requires i < |cols| && EntriesSoFar(opening, cols, text, i)
    ensures |cols[i]| > 10 ==> EntriesSoFar(opening, cols, text + EntryOf(cols[i]), i + 1)
    ensures |cols[i]| <= 10 ==> EntriesSoFar(opening, cols, text, i + 1)
  {
    EntriesFrom(cols, i);
    assert text + EntryOf(cols[i]) + RenameEntries(cols[i + 1..]) == text + RenameEntries(cols[i..]);
  }

  /** `write_net_attributes_renaming_file`'s text, as the source builds it. */
  method WriteRenameText(cols: seq<string>, dbfName: string, kind: string) returns (text: string)
    ensures text == RenameTextAsWritten(cols, dbfName, kind)
  {
    var h := RenameHeader(dbfName, kind);
    text := h;
    if |cols| != 0 {
      text := AppendEntries(h + ", RENAME=", cols);
      text := text[..|text| - 2];
    }
  }

  /** With at least one column and none longer than ten characters the
      source still cuts two characters, leaving a dangling ", RENAM" where
      the intended text is the header alone. */
  lemma RenameTextQuirk(cols: seq<string>, dbfName: string, kind: string)
    requires |cols| > 0 && forall c :: c in cols ==> |c| <= 10
    ensures RenameTextAsWritten(cols, dbfName, kind) == RenameHeader(dbfName, kind) + ", RENAM"
    ensures RenameTextAsWritten(cols, dbfName, kind) != RenameText(cols, dbfName, kind)
  {
    EntriesEmptyIff(cols);
    var h := RenameHeader(dbfName, kind);
    assert h + ", RENAME=" + RenameEntries(cols) == h + ", RENAME=";
    assert (h + ", RENAME=")[..|h + ", RENAME="| - 2] == h + ", RENAM";
  }

  /** The evidently intended text: the rename clause only when some column
      needs renaming, and then the entries with only their final
      separator removed. */
  function RenameText(cols: seq<string>, dbfName: string, kind: string): (t: string)
    ensures var h := RenameHeader(dbfName, kind);
      && |t| >= |h| && t[..|h|] == h
      && (t == h <==> forall c :: c in cols ==> |c| <= 10)
      && (t != h ==> t + ", " == h + ", RENAME=" + RenameEntries(cols))
  {
    var h := RenameHeader(dbfName, kind);
    var e := RenameEntries(cols);
    EntriesEmptyIff(cols);
    if e == [] then h
    else
      EntriesEndWithSeparator(cols);
      assert e[..|e| - 2] + ", " == e;
      assert (h + ", RENAME=" + e[..|e| - 2])[..|h|] == h;
      h + ", RENAME=" + e[..|e| - 2]
  }

  /** Where some column is renamed, the source's text is the intended one. */
  lemma RenameTextAgrees(cols: seq<string>, dbfName: string, kind: string)
    requires exists c :: c in cols && |c| > 10
    ensures RenameTextAsWritten(cols, dbfName, kind) == RenameText(cols, dbfName, kind)
  {
    EntriesEmptyIff(cols);
    var t := RenameText(cols, dbfName, kind);
    var full := RenameHeader(dbfName, kind) + ", RENAME=" + RenameEntries(cols);
    assert full == t + ", ";
    assert full[..|full| - 2] == t;
  }
}
