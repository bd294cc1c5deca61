/** The main script: joining the parameter file's lines into statements,
    seeding the fresh node id, and the loop over GTFS shapes that skips
    shapes without a trip or of an unwanted mode and gives every line one
    headway per period. */
module Driver {
  import opened Wrappers
  import opened Seqs
  import opened Encoders
  import opened Headway

  // ---------------------------------------------------------------------
  // The parameter file.

  /** The bytes `bytes.strip()` removes: ASCII space, tab, line feed,
      carriage return, vertical tab and form feed. */
  predicate StripSpace(c: char) {
    c == ' ' || c == '\t' || c == '\n' || c == '\r' || c == 11 as char || c == 12 as char
  }

  function StripLeft(s: string): string
    decreases |s|
  {
    if s != [] && StripSpace(s[0]) then StripLeft(s[1..]) else s
  }

  function StripRight(s: string): string
    decreases |s|
  {
    if s != [] && StripSpace(s[|s| - 1]) then StripRight(s[..|s| - 1]) else s
  }

  /** `line.strip()`. */
  function Strip(s: string): string {
    StripRight(StripLeft(s))
  }

  /** `StripLeft` drops the leading whitespace and nothing else. */
  lemma {:induction false} StripLeftDrops(s: string)
    ensures var r := StripLeft(s);
      && |r| <= |s| && r == s[|s| - |r|..]
      && (r == [] || !StripSpace(r[0]))
      && forall k :: 0 <= k < |s| - |r| ==> StripSpace(s[k])
    decreases |s|
  {
    if s != [] && StripSpace(s[0]) {
      StripLeftDrops(s[1..]);
      var r := StripLeft(s);
      forall k | 0 <= k < |s| - |r|
        ensures StripSpace(s[k])
      {
        if k > 0 {
          assert s[k] == s[1..][k - 1];
        }
      }
    }
  }

  /** `StripRight` drops the trailing whitespace and nothing else. */
  lemma {:induction false} StripRightDrops(s: string)
    ensures var r := StripRight(s);
      && |r| <= |s| && r == s[..|r|]
      && (r == [] || !StripSpace(r[|r| - 1]))
      && forall k :: |r| <= k < |s| ==> StripSpace(s[k])
    decreases |s|
  {
    if s != [] && StripSpace(s[|s| - 1]) {
      StripRightDrops(s[..|s| - 1]);
      var r := StripRight(s);
      forall k | |r| <= k < |s|
        ensures StripSpace(s[k])
      {
        if k < |s| - 1 {
          assert s[k] == s[..|s| - 1][k];
        }
      }
    }
  }

  /** The stripped line is the slice of the raw line between its leading
      and its trailing whitespace, and neither starts nor ends with
      whitespace. */
  lemma StripTrims(s: string)
    ensures var r := Strip(s);
      && (r == [] || (!StripSpace(r[0]) && !StripSpace(r[|r| - 1])))
      && exists i, j :: 0 <= i <= j <= |s| && r == s[i..j]
           && (forall k :: 0 <= k < i ==> StripSpace(s[k]))
           && (forall k :: j <= k < |s| ==> StripSpace(s[k]))
  {
    StripLeftDrops(s);
    var l := StripLeft(s);
    StripRightDrops(l);
    var r := StripRight(l);
    var i := |s| - |l|;
    var j := i + |r|;
    assert r == s[i..j];
    forall k | j <= k < |s|
      ensures StripSpace(s[k])
    {
      assert s[k] == l[k - i];
    }
  }

  function Count(s: string, c: char): nat {
    multiset(s)[c]
  }

  /** More `{` than `}`, or more `[` than `]`: a statement opens here. */
  predicate Opens(line: string) {
    Count(line, '{') > Count(line, '}') || Count(line, '[') > Count(line, ']')
  }

  predicate Balanced(line: string) {
    Count(line, '{') == Count(line, '}') && Count(line, '[') == Count(line, ']')
  }

  /** One line of the parameter loop on the pending buffer: the new buffer
      and the statement handed to `exec`, if any. Reading `line[0]` of an
      empty stripped line raises. */
  function JoinStep(pending: string, raw: string): (r: Result<(string, Option<string>)>)
    ensures r.Err? <==> Strip(raw) == []
    ensures r.Err? ==> r.fault == IndexOutOfRange
  {
    var line := Strip(raw);
    if line == [] then Err(IndexOutOfRange)
    else if line[0] == '#' then Ok((pending, None))
    else if Opens(line) then Ok((line, None))
    else if Balanced(line) && pending != [] then Ok((pending + line, None))
    else Ok(([], Some(pending + line)))
  }

  function Emitted(out: Option<string>): seq<string> {
    if out.Some? then [out.value] else []
  }

  /** The whole parameter file: the final buffer and the statements in the
      order they are executed; the first empty line aborts. */
  function JoinAll(pending: string, lines: seq<string>): (r: Result<(string, seq<string>)>)
    ensures r.Err? ==> r.fault == IndexOutOfRange
    decreases |lines|
  {
    if lines == [] then Ok((pending, []))
    else
      var step := JoinStep(pending, lines[0]);
      if step.Err? then Err(step.fault)
      else
        var rest := JoinAll(step.value.0, lines[1..]);
        if rest.Err? then rest
        else Ok((rest.value.0, Emitted(step.value.1) + rest.value.1))
  }

  /** Reading stops with an error exactly when some line is empty once
      stripped. */
  lemma {:induction false} JoinAllFails(pending: string, lines: seq<string>)
    ensures JoinAll(pending, lines).Err? <==> exists i :: 0 <= i < |lines| && Strip(lines[i]) == []
    ensures JoinAll(pending, lines).Err? ==> JoinAll(pending, lines).fault == IndexOutOfRange
    decreases |lines|
  {
    if lines != [] {
      var step := JoinStep(pending, lines[0]);
      if step.Ok? {
        JoinAllFails(step.value.0, lines[1..]);
        if exists i :: 0 <= i < |lines| && Strip(lines[i]) == [] {
          var i :| 0 <= i < |lines| && Strip(lines[i]) == [];
          assert i != 0;
          assert Strip(lines[1..][i - 1]) == [];
        }
        if exists i :: 0 <= i < |lines| - 1 && Strip(lines[1..][i]) == [] {
          var i :| 0 <= i < |lines| - 1 && Strip(lines[1..][i]) == [];
          assert Strip(lines[i + 1]) == [];
        }
      }
    }
  }

  /** The `line_append` state machine of the parameter loop. */
  class ParamJoiner {
    var pending: string
    var statements: seq<string>

    constructor ()
      ensures pending == [] && statements == []
    {
      pending := [];
      statements := [];
    }

    /** Feeds one raw line of the file: an empty line raises; a comment
        changes nothing; a line that opens a bracket replaces the buffer;
        a balanced line extends a non-empty buffer; any other line is
        appended and the whole buffer is emitted and cleared. */
    method Feed(raw: string) returns (r: Result<Option<string>>)
      modifies this
      ensures var line := Strip(raw);
        && (line == [] ==> r == Err(IndexOutOfRange) && pending == old(pending) && statements == old(statements))
        && (line != [] && line[0] == '#' ==> r == Ok(None) && pending == old(pending) && statements == old(statements))
        && (line != [] && line[0] != '#' && Opens(line) ==>
              r == Ok(None) && pending == line && statements == old(statements))
        && (line != [] && line[0] != '#' && !Opens(line) && Balanced(line) && old(pending) != [] ==>
              r == Ok(None) && pending == old(pending) + line && statements == old(statements))
        && (line != [] && line[0] != '#' && !Opens(line) && (!Balanced(line) || old(pending) == []) ==>
              r == Ok(Some(old(pending) + line)) && pending == [] && statements == old(statements) + [old(pending) + line])
      ensures r.Err? <==> JoinStep(old(pending), raw).Err?
      ensures r.Ok? ==> JoinStep(old(pending), raw).value == (pending, r.value)
      ensures r.Ok? ==> statements == old(statements) + Emitted(r.value)
    {
      var line := Strip(raw);
      if line == [] {
        return Err(IndexOutOfRange);
      }
      if line[0] == '#' {
        return Ok(None);
      }
      if Opens(line) {
        pending := line;
        return Ok(None);
      } else if Balanced(line) && pending != [] {
        pending := pending + line;
        return Ok(None);
      }
      var statement := pending + line;
      pending := [];
      statements := statements + [statement];
      r := Ok(Some(statement));
    }
  }

  /** Reads the parameter file: the statements executed, in order. */
  method ReadParameters(lines: seq<string>) returns (r: Result<seq<string>>)
    ensures r.Err? <==> JoinAll([], lines).Err?
    ensures r.Ok? ==> r.value == JoinAll([], lines).value.1
  {
    var joiner := new ParamJoiner();
    var i := 0;
    assert lines[0..] == lines;
    assert JoinAll([], lines).Ok? ==> JoinAll([], lines).value.1 == [] + JoinAll([], lines).value.1;
    while i < |lines|
      invariant 0 <= i <= |lines|
      invariant Joined(lines, joiner.pending, joiner.statements, i)
    {
      var fed := Feed1(joiner, lines, i);
      if fed.Err? {
        return Err(fed.fault);
      }
      i := i + 1;
    }
    r := Ok(joiner.statements);
  }

  /** After `i` lines, the buffer and the statements so far, followed by
      the rest of the file, give the whole file's outcome. */
  ghost predicate Joined(lines: seq<string>, pending: string, statements: seq<string>, i: nat)
    requires i <= |lines|
  {
    && (JoinAll([], lines).Err? <==> JoinAll(pending, lines[i..]).Err?)
    && (JoinAll([], lines).Ok? ==>
          JoinAll([], lines).value == (JoinAll(pending, lines[i..]).value.0,
                                       statements + JoinAll(pending, lines[i..]).value.1))
  }

  /** One iteration of the parameter loop. */
  method Feed1(joiner: ParamJoiner, lines: seq<string>, i: nat) returns (r: Result<Option<string>>)
    requires i < |lines| && Joined(lines, joiner.pending, joiner.statements, i)
    modifies joiner
    ensures r.Err? ==> JoinAll([], lines).Err?
    ensures r.Ok? ==> Joined(lines, joiner.pending, joiner.statements, i + 1)
  {
    ghost var before := joiner.statements;
    ghost var pending := joiner.pending;
    assert lines[i..][0] == lines[i] && lines[i..][1..] == lines[i + 1..];
    r := joiner.Feed(lines[i]);
    if r.Ok? {
      var rest := JoinAll(joiner.pending, lines[i + 1..]);
      assert JoinAll(pending, lines[i..]) == if rest.Err? then rest else Ok((rest.value.0, Emitted(r.value) + rest.value.1));
      if rest.Ok? {
        assert before + (Emitted(r.value) + rest.value.1) == joiner.statements + rest.value.1;
      }
    }
  }

  predicate NotComment(raw: string) {
    var line := Strip(raw);
    line == [] || line[0] != '#'
  }

  /** A step that emits nothing hands the rest of the file the new buffer. */
  lemma SilentStep(pending: string, lines: seq<string>, p: string)
    requires lines != [] && JoinStep(pending, lines[0]) == Ok((p, None))
    ensures JoinAll(pending, lines) == JoinAll(p, lines[1..])
  {
    var rest := JoinAll(p, lines[1..]);
    if rest.Ok? {
      assert Emitted(None) + rest.value.1 == rest.value.1;
    }
  }

  /** A step that emits a statement puts it before the rest's statements. */
  lemma EmitStep(pending: string, lines: seq<string>, p: string, out: string)
    requires lines != [] && JoinStep(pending, lines[0]) == Ok((p, Some(out)))
    requires JoinAll(p, lines[1..]).Ok?
    ensures JoinAll(pending, lines) == Ok((JoinAll(p, lines[1..]).value.0, [out] + JoinAll(p, lines[1..]).value.1))
  {
  }

  /** Comment lines do nothing: dropping them from the file changes neither
      the statements nor the final buffer nor whether reading fails. */
  lemma {:induction false} CommentsIgnored(pending: string, lines: seq<string>)
    ensures JoinAll(pending, lines) == JoinAll(pending, Filter(lines, NotComment))
    decreases |lines|
  {
    if lines != [] {
      var step := JoinStep(pending, lines[0]);
      if NotComment(lines[0]) {
        var kept := Filter(lines, NotComment);
        assert kept[0] == lines[0] && kept[1..] == Filter(lines[1..], NotComment);
        if step.Ok? {
          CommentsIgnored(step.value.0, lines[1..]);
        }
      } else {
        assert Filter(lines, NotComment) == Filter(lines[1..], NotComment);
        SilentStep(pending, lines, pending);
        CommentsIgnored(pending, lines[1..]);
      }
    }
  }

  function StripAll(lines: seq<string>): (r: seq<string>)
    ensures |r| == |lines| && forall i :: 0 <= i < |lines| ==> r[i] == Strip(lines[i])
  {
    if lines == [] then [] else [Strip(lines[0])] + StripAll(lines[1..])
  }

  /** A line that is neither empty nor a comment and has balanced
      brackets: a complete one-line statement. */
  predicate Plain(raw: string) {
    var line := Strip(raw);
    line != [] && line[0] != '#' && Balanced(line)
  }

  /** A file of single-line statements runs every line on its own, in
      order, and leaves the buffer empty. */
  lemma {:induction false} SingleLineStatements(lines: seq<string>)
    requires forall i :: 0 <= i < |lines| ==> Plain(lines[i])
    ensures JoinAll([], lines) == Ok(([], StripAll(lines)))
    decreases |lines|
  {
    if lines != [] {
      SingleLineStatements(lines[1..]);
      var line := Strip(lines[0]);
      assert Plain(lines[0]);
      assert [] + line == line;
      EmitStep([], lines, [], line);
    }
  }

  function Concat(parts: seq<string>): string
    decreases |parts|
  {
    if parts == [] then [] else parts[0] + Concat(parts[1..])
  }

  /** Balanced lines after an opening line are appended to the buffer. */
  lemma {:induction false} MiddlesAppended(pending: string, middles: seq<string>, rest: seq<string>)
    requires pending != []
    requires forall i :: 0 <= i < |middles| ==> Plain(middles[i])
    ensures JoinAll(pending, middles + rest) == JoinAll(pending + Concat(StripAll(middles)), rest)
    decreases |middles|
  {
    if middles == [] {
      assert middles + rest == rest;
      assert pending + Concat(StripAll(middles)) == pending;
    } else {
      var line := Strip(middles[0]);
      assert Plain(middles[0]);
      var file := middles + rest;
      assert file[0] == middles[0] && file[1..] == middles[1..] + rest;
      SilentStep(pending, file, pending + line);
      MiddlesAppended(pending + line, middles[1..], rest);
      assert StripAll(middles)[1..] == StripAll(middles[1..]);
      assert pending + line + Concat(StripAll(middles[1..])) == pending + Concat(StripAll(middles));
    }
  }

  /** A multi-line statement: an opening line, balanced continuation lines
      and a closing line are executed as one statement, their stripped
      texts joined without separators. */
  lemma BlockJoined(opener: string, middles: seq<string>, closer: string)
    requires Strip(opener) != [] && Strip(opener)[0] != '#' && Opens(Strip(opener))
    requires forall i :: 0 <= i < |middles| ==> Plain(middles[i])
    requires Strip(closer) != [] && Strip(closer)[0] != '#' && !Opens(Strip(closer)) && !Balanced(Strip(closer))
    ensures JoinAll([], [opener] + middles + [closer])
         == Ok(([], [Strip(opener) + Concat(StripAll(middles)) + Strip(closer)]))
  {
    var tail := middles + [closer];
    assert [opener] + middles + [closer] == [opener] + tail;
    OpenerStep([], opener, tail);
    BlockRest(Strip(opener), middles, closer);
  }

  /** With a statement pending, the continuation lines and the closing line
      complete it. */
  lemma BlockRest(head: string, middles: seq<string>, closer: string)
    requires head != []
    requires forall i :: 0 <= i < |middles| ==> Plain(middles[i])
    requires Strip(closer) != [] && Strip(closer)[0] != '#' && !Opens(Strip(closer)) && !Balanced(Strip(closer))
    ensures JoinAll(head, middles + [closer]) == Ok(([], [head + Concat(StripAll(middles)) + Strip(closer)]))
  {
    MiddlesAppended(head, middles, [closer]);
    CloserEmits(head + Concat(StripAll(middles)), closer);
  }

  /** An opening line becomes the pending buffer, whatever was pending. */
  lemma OpenerStep(pending: string, opener: string, rest: seq<string>)
    requires Strip(opener) != [] && Strip(opener)[0] != '#' && Opens(Strip(opener))
    ensures JoinAll(pending, [opener] + rest) == JoinAll(Strip(opener), rest)
  {
    var file := [opener] + rest;
    assert file[0] == opener && file[1..] == rest;
    SilentStep(pending, file, Strip(opener));
  }

  /** The closing line of a block emits the buffer with it appended. */
  lemma CloserEmits(joined: string, closer: string)
    requires Strip(closer) != [] && Strip(closer)[0] != '#' && !Opens(Strip(closer)) && !Balanced(Strip(closer))
    ensures JoinAll(joined, [closer]) == Ok(([], [joined + Strip(closer)]))
  {
    var statement := joined + Strip(closer);
    assert [closer][1..] == [];
    EmitStep(joined, [closer], [], statement);
    assert [statement] + [] == [statement];
  }

  /** An opening line met while a statement is pending replaces the
      buffer: whatever was gathered so far is lost, not nested, so reading
      goes on exactly as if nothing had been pending. */
  lemma NestedOpenerDropsBuffer(pending: string, opener: string, rest: seq<string>)
    requires Strip(opener) != [] && Strip(opener)[0] != '#' && Opens(Strip(opener))
    ensures JoinAll(pending, [opener] + rest) == JoinAll([], [opener] + rest)
  {
    OpenerStep(pending, opener, rest);
    OpenerStep([], opener, rest);
  }

  /** Every statement executed is non-empty and is not a comment. */
  lemma {:induction false} StatementsAreCode(pending: string, lines: seq<string>)
    requires pending == [] || pending[0] != '#'
    ensures JoinAll(pending, lines).Ok? ==>
      (JoinAll(pending, lines).value.0 == [] || JoinAll(pending, lines).value.0[0] != '#')
    ensures JoinAll(pending, lines).Ok? ==>
      forall s :: s in JoinAll(pending, lines).value.1 ==> s != [] && s[0] != '#'
    decreases |lines|
  {
    if lines != [] {
      var step := JoinStep(pending, lines[0]);
      if step.Ok? {
        var line := Strip(lines[0]);
        var p := step.value.0;
        assert p == [] || p[0] != '#';
        StatementsAreCode(p, lines[1..]);
        var out := step.value.1;
        if out.Some? {
          assert out.value == pending + line;
          assert out.value[0] == (if pending == [] then line[0] else pending[0]);
        }
      }
    }
  }

  // ---------------------------------------------------------------------
  // The fresh node id.

  /** `max(base_nodes_df.N) + 1`; `max` of an empty column raises. */
  function FreshIdSeed(baseIds: seq<int>): (r: Result<int>)
    ensures r.Err? <==> baseIds == []
    ensures r.Err? ==> r.fault == EmptySequence
    ensures r.Ok? ==> (forall n :: n in baseIds ==> n < r.value) && r.value - 1 in baseIds
  {
    if baseIds == [] then Err(EmptySequence) else Ok(Max(baseIds) + 1)
  }

  // ---------------------------------------------------------------------
  // The loop over shapes.

  /** What the GTFS tables say about a shape's first trip: its route, the
      route's GTFS `route_type` and the trip's head sign. */
  datatype Trip = Trip(routeId: string, routeType: int, headSign: string)

  /** A shape of `shapes.txt` and its first trip, if `trips.txt` has one. */
  datatype Shape = Shape(id: string, trip: Option<Trip>)

  /** A line of the `.LIN` file (the node sequence is produced by the
      sequencer per shape and is not part of this record). */
  datatype Line = Line(id: string, name: string, mode: int, headways: seq<int>)

  /** A shape is processed when it has a trip whose route type is wanted. */
  predicate Processed(s: Shape, modes: set<int>) {
    s.trip.Some? && s.trip.value.routeType in modes
  }

  /** The line a processed shape yields, with one headway per period. */
  function LineFor(s: Shape, mode: int, periods: seq<int>, arrivals: (string, int) -> seq<int>): (l: Line)
    requires s.trip.Some?
    ensures l.id == s.id && l.mode == mode && |l.headways| == |periods|
    ensures l.name == SetLineName(s.trip.value.headSign, s.id) && |l.name| <= 10
    ensures forall k :: 0 <= k < |periods| ==> l.headways[k] == Headway.Headway(arrivals(s.id, periods[k]))
  {
    Line(s.id, SetLineName(s.trip.value.headSign, s.id), mode,
         seq(|periods|, k requires 0 <= k < |periods| => Headway.Headway(arrivals(s.id, periods[k]))))
  }

  /** The headways of one line: `calculate_headway` on each period's
      arrival times, in period order. */
  method Headways(id: string, periods: seq<int>, arrivals: (string, int) -> seq<int>) returns (hs: seq<int>)
    ensures |hs| == |periods| && forall k :: 0 <= k < |periods| ==> hs[k] == Headway.Headway(arrivals(id, periods[k]))
  {
    hs := [];
    var k := 0;
    while k < |periods|
      invariant 0 <= k <= |periods| && |hs| == k
      invariant forall j :: 0 <= j < k ==> hs[j] == Headway.Headway(arrivals(id, periods[j]))
    {
      var times := arrivals(id, periods[k]);
      var a := new int[|times|](i requires 0 <= i < |times| => times[i]);
      assert a[..] == times;
      var h := CalculateHeadway(a);
      hs := hs + [h];
      k := k + 1;
    }
  }

  /** The lines of the whole run, as a function of the shapes: processed
      shapes in order; a processed shape whose route is missing from the
      mode table aborts the run. */
  function AllLines(shapes: seq<Shape>, modes: set<int>, modeTable: map<string, int>, periods: seq<int>,
                    arrivals: (string, int) -> seq<int>): (r: Result<seq<Line>>)
    ensures r.Err? ==> r.fault == NotFound
    decreases |shapes|
  {
    if shapes == [] then Ok([])
    else
      var s := shapes[0];
      var rest := AllLines(shapes[1..], modes, modeTable, periods, arrivals);
      if !Processed(s, modes) then rest
      else if s.trip.value.routeId !in modeTable then Err(NotFound)
      else if rest.Err? then rest
      else Ok([LineFor(s, modeTable[s.trip.value.routeId], periods, arrivals)] + rest.value)
  }

  /** The run aborts exactly when a processed shape's route has no entry
      in the mode table. */
  lemma {:induction false} AbortsOnUnknownRoute(shapes: seq<Shape>, modes: set<int>, modeTable: map<string, int>,
                                                periods: seq<int>, arrivals: (string, int) -> seq<int>)
    ensures AllLines(shapes, modes, modeTable, periods, arrivals).Err? <==>
      exists i :: 0 <= i < |shapes| && Processed(shapes[i], modes) && shapes[i].trip.value.routeId !in modeTable
    decreases |shapes|
  {
    if shapes != [] {
      AbortsOnUnknownRoute(shapes[1..], modes, modeTable, periods, arrivals);
      if exists i :: 0 <= i < |shapes| && Processed(shapes[i], modes) && shapes[i].trip.value.routeId !in modeTable {
        var i :| 0 <= i < |shapes| && Processed(shapes[i], modes) && shapes[i].trip.value.routeId !in modeTable;
        if i > 0 {
          assert shapes[1..][i - 1] == shapes[i];
        }
      }
      if exists i :: 0 <= i < |shapes| - 1 && Processed(shapes[1..][i], modes) && shapes[1..][i].trip.value.routeId !in modeTable {
        var i :| 0 <= i < |shapes| - 1 && Processed(shapes[1..][i], modes) && shapes[1..][i].trip.value.routeId !in modeTable;
        assert shapes[i + 1] == shapes[1..][i];
      }
    }
  }

  /** The shape loop of the main script. */
  method ProcessShapes(shapes: seq<Shape>, modes: set<int>, modeTable: map<string, int>, periods: seq<int>,
                       arrivals: (string, int) -> seq<int>) returns (r: Result<seq<Line>>)
    ensures r == AllLines(shapes, modes, modeTable, periods, arrivals)
  {
    var lines: seq<Line> := [];
    var i := 0;
    assert shapes[0..] == shapes;
    ghost var all := AllLines(shapes, modes, modeTable, periods, arrivals);
    assert all.Ok? ==> lines + all.value == all.value;
    assert LinesSoFar(shapes, modes, modeTable, periods, arrivals, lines, 0);
    while i < |shapes|
      invariant 0 <= i <= |shapes|
      invariant LinesSoFar(shapes, modes, modeTable, periods, arrivals, lines, i)
    {
      var s := shapes[i];
      ShapeStep(shapes, modes, modeTable, periods, arrivals, lines, i);
      if s.trip.None? {
        i := i + 1;
        continue;
      }
      var trip := s.trip.value;
      if trip.routeType !in modes {
        i := i + 1;
        continue;
      }
      if trip.routeId !in modeTable {
        return Err(NotFound);
      }
      var mode := modeTable[trip.routeId];
      var name := SetLineName(trip.headSign, s.id);
      var hs := Headways(s.id, periods, arrivals);
      var line := Line(s.id, name, mode, hs);
      assert line == LineFor(s, mode, periods, arrivals);
      lines := lines + [line];
      i := i + 1;
    }
    assert shapes[i..] == [];
    assert lines + [] == lines;
    r := Ok(lines);
  }

  /** After the first `i` shapes, the lines gathered so far followed by
      the rest of the run give the whole run's outcome. */
  ghost predicate LinesSoFar(shapes: seq<Shape>, modes: set<int>, modeTable: map<string, int>, periods: seq<int>,
                             arrivals: (string, int) -> seq<int>, lines: seq<Line>, i: nat)
    requires i <= |shapes|
  {
    var rest := AllLines(shapes[i..], modes, modeTable, periods, arrivals);
    AllLines(shapes, modes, modeTable, periods, arrivals) == if rest.Err? then rest else Ok(lines + rest.value)
  }

  /** One shape of the loop: skipped, aborting, or adding its line. */
  lemma ShapeStep(shapes: seq<Shape>, modes: set<int>, modeTable: map<string, int>, periods: seq<int>,
                  arrivals: (string, int) -> seq<int>, lines: seq<Line>, i: nat)
    requires i < |shapes| && LinesSoFar(shapes, modes, modeTable, periods, arrivals, lines, i)
    ensures !Processed(shapes[i], modes) ==> LinesSoFar(shapes, modes, modeTable, periods, arrivals, lines, i + 1)
    ensures Processed(shapes[i], modes) && shapes[i].trip.value.routeId !in modeTable ==>
      AllLines(shapes, modes, modeTable, periods, arrivals) == Err(NotFound)
    ensures Processed(shapes[i], modes) && shapes[i].trip.value.routeId in modeTable ==>
      LinesSoFar(shapes, modes, modeTable, periods, arrivals,
                 lines + [LineFor(shapes[i], modeTable[shapes[i].trip.value.routeId], periods, arrivals)], i + 1)
  {
    assert shapes[i..][0] == shapes[i] && shapes[i..][1..] == shapes[i + 1..];
    if Processed(shapes[i], modes) && shapes[i].trip.value.routeId in modeTable {
      AddLineStep(shapes, modes, modeTable, periods, arrivals, lines, i);
    }
  }

  lemma AddLineStep(shapes: seq<Shape>, modes: set<int>, modeTable: map<string, int>, periods: seq<int>,
                    arrivals: (string, int) -> seq<int>, lines: seq<Line>, i: nat)
    requires i < |shapes| && LinesSoFar(shapes, modes, modeTable, periods, arrivals, lines, i)
    requires shapes[i..][0] == shapes[i] && shapes[i..][1..] == shapes[i + 1..]
    requires Processed(shapes[i], modes) && shapes[i].trip.value.routeId in modeTable
    ensures LinesSoFar(shapes, modes, modeTable, periods, arrivals,
                       lines + [LineFor(shapes[i], modeTable[shapes[i].trip.value.routeId], periods, arrivals)], i + 1)
  {
    var rest := AllLines(shapes[i + 1..], modes, modeTable, periods, arrivals);
    if rest.Ok? {
      var l := LineFor(shapes[i], modeTable[shapes[i].trip.value.routeId], periods, arrivals);
      assert lines + ([l] + rest.value) == (lines + [l]) + rest.value;
    }
  }

  /** The filter of the shapes the loop processes. */
  function KeepFor(modes: set<int>): Shape -> bool {
    (s: Shape) => Processed(s, modes)
  }

  /** Line `k` is the line of the `k`-th processed shape, with the mode
      the table gives its route. */
  predicate LinesMatch(lines: seq<Line>, kept: seq<Shape>, modes: set<int>, modeTable: map<string, int>,
                       periods: seq<int>, arrivals: (string, int) -> seq<int>) {
    && |lines| == |kept|
    && forall k :: 0 <= k < |lines| ==>
         && Processed(kept[k], modes) && kept[k].trip.value.routeId in modeTable
         && lines[k] == LineFor(kept[k], modeTable[kept[k].trip.value.routeId], periods, arrivals)
  }

  lemma LinesMatchCons(s: Shape, lines: seq<Line>, kept: seq<Shape>, modes: set<int>, modeTable: map<string, int>,
                       periods: seq<int>, arrivals: (string, int) -> seq<int>)
    requires LinesMatch(lines, kept, modes, modeTable, periods, arrivals)
    requires Processed(s, modes) && s.trip.value.routeId in modeTable
    ensures LinesMatch([LineFor(s, modeTable[s.trip.value.routeId], periods, arrivals)] + lines, [s] + kept,
                       modes, modeTable, periods, arrivals)
  {
    var l := LineFor(s, modeTable[s.trip.value.routeId], periods, arrivals);
    forall k | 0 < k < |lines| + 1
      ensures ([l] + lines)[k] == lines[k - 1] && ([s] + kept)[k] == kept[k - 1]
    {
    }
  }

  /** Skipped shapes add no line, and every line comes from a processed
      shape, in shape order, with its mode, its name and one headway per
      period. */
  lemma {:induction false} LinesFromProcessedShapes(shapes: seq<Shape>, modes: set<int>, modeTable: map<string, int>,
                                                    periods: seq<int>, arrivals: (string, int) -> seq<int>)
    requires AllLines(shapes, modes, modeTable, periods, arrivals).Ok?
    ensures LinesMatch(AllLines(shapes, modes, modeTable, periods, arrivals).value, Filter(shapes, KeepFor(modes)),
                       modes, modeTable, periods, arrivals)
    decreases |shapes|
  {
    if shapes != [] {
      var s := shapes[0];
      var rest := AllLines(shapes[1..], modes, modeTable, periods, arrivals);
      assert rest.Ok?;
      LinesFromProcessedShapes(shapes[1..], modes, modeTable, periods, arrivals);
      if Processed(s, modes) {
        assert Filter(shapes, KeepFor(modes)) == [s] + Filter(shapes[1..], KeepFor(modes));
        LinesMatchCons(s, rest.value, Filter(shapes[1..], KeepFor(modes)), modes, modeTable, periods, arrivals);
      } else {
        assert Filter(shapes, KeepFor(modes)) == Filter(shapes[1..], KeepFor(modes));
      }
    }
  }
}
