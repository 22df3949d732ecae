/** The procfs view: one file per process, listing that process's interfaces. */
module Proc {
  import opened Bytes
  import opened Buffer
  import opened Codec
  import opened InfoPacket
  import R = Registry
  import Runs = RegistryRuns
  import opened RegistryTable

  /** The lines of an interface's description, before formatting. */
  datatype Line =
    | Heading(id: u32, name: Option<CStr>, description: Option<CStr>)
    | ArgumentsTitle
    | ArgumentLine(i: nat, flag: byte, attr: Attr<Option<CStr>>)
    | ReturnValuesTitle
    | ReturnValueLine(i: nat, flag: byte, attr: Attr<Option<CStr>>)

  /** What `sprintf` makes of a line. */
  type Render = Line -> seq<byte>

  /** The room for one line with its NUL: longer ones are written past the stack array. */
  const LINE_ROOM := 0x500

  /** The two titles, which are copied from where they stand and not formatted. */
  const ARGUMENTS_TITLE: seq<byte> := [9, 97, 114, 103, 117, 109, 101, 110, 116, 115, 58, 10]
  const RETURN_VALUES_TITLE: seq<byte> := [9, 114, 101, 116, 117, 114, 110, 95, 118, 97, 108, 117, 101, 115, 58, 10]

  predicate LineFits(render: Render, line: Line) {
    line.ArgumentsTitle? || line.ReturnValuesTitle? || |render(line)| < LINE_ROOM
  }

  function LineText(render: Render, line: Line): (text: seq<byte>)
    ensures LineFits(render, line) ==> |text| < LINE_ROOM
  {
    match line
    case ArgumentsTitle => ARGUMENTS_TITLE
    case ReturnValuesTitle => RETURN_VALUES_TITLE
    case _ => render(line)
  }

  function Text(render: Render): Line -> seq<byte> {
    (line: Line) => LineText(render, line)
  }

  function PutLine(render: Render): (Buf, Line) -> Buf {
    (b: Buf, line: Line) => if LineFits(render, line) then Put(b, LineText(render, line)) else Overrun
  }

  function ArgumentLines(args: seq<Attr<Option<CStr>>>, n: nat): (lines: seq<Line>)
    requires n <= |args|
    ensures |lines| == n
  {
    seq(n, i requires 0 <= i < n => ArgumentLine(i, 0, args[i]))
  }

  function ReturnValueLines(rets: seq<Attr<Option<CStr>>>, n: nat): (lines: seq<Line>)
    requires n <= |rets|
    ensures |lines| == n
  {
    seq(n, i requires 0 <= i < n => ReturnValueLine(i, 0, rets[i]))
  }

  /** The lines `format_interface` appends. Flags are those of registration: zero. */
  function InterfaceLines(id: u32, info: InfoRecord): seq<Line> {
    [Heading(id, info.name, info.description), ArgumentsTitle] + ArgumentLines(info.args, |info.args|)
    + [ReturnValuesTitle] + ReturnValueLines(info.rets, |info.rets|)
  }

  predicate Belongs(recs: map<u32, R.Rec>, id: u32, entry: nat) {
    id in recs && recs[id].proc == entry
  }

  /** The listed interfaces that belong to a procfs entry, in the order of the array. */
  function Members(order: seq<u32>, recs: map<u32, R.Rec>, entry: nat): seq<u32> {
    if order == [] then []
    else
      var init, last := Members(order[..|order| - 1], recs, entry), order[|order| - 1];
      if Belongs(recs, last, entry) then init + [last] else init
  }

  function FileLines(ids: seq<u32>, recs: map<u32, R.Rec>): seq<Line> {
    if ids == [] then []
    else
      var init, last := FileLines(ids[..|ids| - 1], recs), ids[|ids| - 1];
      if last in recs then init + InterfaceLines(last, recs[last].info) else init
  }

  /** The outcome of a read: the return value, the file position and what reached the reader. */
  datatype ReadResult = Overflows | Reads(ret: int, pos: nat, text: seq<byte>)

  function Finish(b: Buf, count: nat): ReadResult {
    match b
    case Overrun => Overflows
    case Buf(bytes, _) => if count < |bytes| then Reads(-1, 0, []) else Reads(|bytes|, |bytes|, bytes)
  }

  /** `proc_read`. */
  function ReadFile(r: R.Registry, entry: nat, count: nat, pos: nat, render: Render): ReadResult {
    if pos > 0 then Reads(0, pos, [])
    else Finish(PutEach(PutLine(render), EMPTY, FileLines(Members(r.order, r.recs, entry), r.recs)), count)
  }

  // ---- the loops ----

  lemma LineIs(render: Render, b: Buf, line: Line)
    ensures PutLine(render)(b, line) == if LineFits(render, line) then Put(b, LineText(render, line)) else Overrun
  {
    var put := PutLine(render);
    assert put(b, line) == if LineFits(render, line) then Put(b, LineText(render, line)) else Overrun;
  }

  lemma TextIs(render: Render, line: Line)
    ensures Text(render)(line) == LineText(render, line)
  {
    var text := Text(render);
    assert text(line) == LineText(render, line);
  }

  lemma LinesAppend(render: Render)
    ensures Appends(PutLine(render), Text(render))
  {
    var put, text := PutLine(render), Text(render);
    forall b: Buf, line: Line
      ensures if b.Overrun? then put(b, line).Overrun?
              else
                Wellformed(b) ==>
                  Wellformed(put(b, line)) && (put(b, line).Buf? ==> put(b, line).bytes == b.bytes + text(line))
    {
      LineIs(render, b, line);
      TextIs(render, line);
      if Wellformed(b) && LineFits(render, line) { PutFitsExactly(b, LineText(render, line)); }
    }
  }

  lemma {:induction false} PutEachConcat<T>(put: (Buf, T) -> Buf, b: Buf, xs: seq<T>, ys: seq<T>)
    ensures PutEach(put, b, xs + ys) == PutEach(put, PutEach(put, b, xs), ys)
  {
    if ys == [] {
      assert xs + ys == xs;
    } else {
      PutEachConcat(put, b, xs, ys[..|ys| - 1]);
      assert (xs + ys)[..|xs| + |ys| - 1] == xs + ys[..|ys| - 1];
    }
  }

  lemma OneMore(render: Render, b: Buf, lines: seq<Line>, line: Line)
    ensures PutEach(PutLine(render), b, lines + [line]) == PutLine(render)(PutEach(PutLine(render), b, lines), line)
  {
    assert (lines + [line])[..|lines|] == lines;
  }

  lemma OneLine(render: Render, b: Buf, line: Line)
    ensures PutEach(PutLine(render), b, [line]) == PutLine(render)(b, line)
  {
    assert [line][..0] == [];
  }

  lemma NoLines(render: Render, b: Buf)
    ensures PutEach(PutLine(render), b, []) == b
  {
  }

  /** A buffer that has overrun stays so. */
  lemma {:induction false} OverrunStays(render: Render, rest: seq<Line>)
    ensures PutEach(PutLine(render), Overrun, rest).Overrun?
  {
    if rest != [] { OverrunStays(render, rest[..|rest| - 1]); }
  }

  lemma PrefixOverruns(render: Render, b: Buf, done: seq<Line>, lines: seq<Line>)
    requires done <= lines && PutEach(PutLine(render), b, done).Overrun?
    ensures PutEach(PutLine(render), b, lines).Overrun?
  {
    hide PutLine, PutEach;
    assert lines == done + lines[|done|..];
    PutEachConcat(PutLine(render), b, done, lines[|done|..]);
    OverrunStays(render, lines[|done|..]);
  }

  /** The five stages of `format_interface`. */
  lemma FormatInStages(render: Render, b: Buf, id: u32, info: InfoRecord)
    ensures var put := PutLine(render);
            var b1 := put(put(b, Heading(id, info.name, info.description)), ArgumentsTitle);
            var b2 := PutEach(put, b1, ArgumentLines(info.args, |info.args|));
            var b3 := put(b2, ReturnValuesTitle);
            PutEach(put, b, InterfaceLines(id, info)) == PutEach(put, b3, ReturnValueLines(info.rets, |info.rets|))
  {
    hide PutLine, PutEach, ArgumentLines, ReturnValueLines;
    var put, heading := PutLine(render), Heading(id, info.name, info.description);
    var args, rets := ArgumentLines(info.args, |info.args|), ReturnValueLines(info.rets, |info.rets|);
    OneLine(render, b, heading);
    OneMore(render, b, [heading], ArgumentsTitle);
    assert [heading] + [ArgumentsTitle] == [heading, ArgumentsTitle];
    PutEachConcat(put, b, [heading, ArgumentsTitle], args);
    OneMore(render, b, [heading, ArgumentsTitle] + args, ReturnValuesTitle);
    PutEachConcat(put, b, [heading, ArgumentsTitle] + args + [ReturnValuesTitle], rets);
  }

  /** One `sprintf` and `copy_to_buffer`. */
  method AppendLine(dest: GrowBuffer, line: Line, render: Render) returns (ok: bool)
    requires dest.Valid() && !line.ArgumentsTitle? && !line.ReturnValuesTitle?
    modifies dest, dest.data
    ensures dest.data == old(dest.data) || fresh(dest.data)
    ensures var b := PutLine(render)(old(dest.State()), line);
            (ok <==> b.Buf?) && (ok ==> dest.Valid() && dest.State() == b)
  {
    LineIs(render, dest.State(), line);
    var tmp := render(line);
    if |tmp| >= LINE_ROOM {
      return false;
    }
    ok := dest.Append(tmp);
  }

  method AppendArguments(dest: GrowBuffer, args: seq<Attr<Option<CStr>>>, render: Render) returns (ok: bool)
    requires dest.Valid()
    modifies dest, dest.data
    ensures dest.data == old(dest.data) || fresh(dest.data)
    ensures var b := PutEach(PutLine(render), old(dest.State()), ArgumentLines(args, |args|));
            (ok <==> b.Buf?) && (ok ==> dest.Valid() && dest.State() == b)
  {
    hide PutEach, PutLine, Wellformed;
    ghost var start := dest.State();
    NoLines(render, start);
    for i := 0 to |args|
      invariant dest.Valid() && (dest.data == old(dest.data) || fresh(dest.data))
      invariant dest.State() == PutEach(PutLine(render), start, ArgumentLines(args, i))
    {
      OneMore(render, start, ArgumentLines(args, i), ArgumentLine(i, 0, args[i]));
      assert ArgumentLines(args, i) + [ArgumentLine(i, 0, args[i])] == ArgumentLines(args, i + 1);
      ok := AppendLine(dest, ArgumentLine(i, 0, args[i]), render);
      if !ok {
        PrefixOverruns(render, start, ArgumentLines(args, i + 1), ArgumentLines(args, |args|));
        return;
      }
    }
    return true;
  }

  method AppendReturnValues(dest: GrowBuffer, rets: seq<Attr<Option<CStr>>>, render: Render) returns (ok: bool)
    requires dest.Valid()
    modifies dest, dest.data
    ensures dest.data == old(dest.data) || fresh(dest.data)
    ensures var b := PutEach(PutLine(render), old(dest.State()), ReturnValueLines(rets, |rets|));
            (ok <==> b.Buf?) && (ok ==> dest.Valid() && dest.State() == b)
  {
    hide PutEach, PutLine, Wellformed;
    ghost var start := dest.State();
    NoLines(render, start);
    for i := 0 to |rets|
      invariant dest.Valid() && (dest.data == old(dest.data) || fresh(dest.data))
      invariant dest.State() == PutEach(PutLine(render), start, ReturnValueLines(rets, i))
    {
      OneMore(render, start, ReturnValueLines(rets, i), ReturnValueLine(i, 0, rets[i]));
      assert ReturnValueLines(rets, i) + [ReturnValueLine(i, 0, rets[i])] == ReturnValueLines(rets, i + 1);
      ok := AppendLine(dest, ReturnValueLine(i, 0, rets[i]), render);
      if !ok {
        PrefixOverruns(render, start, ReturnValueLines(rets, i + 1), ReturnValueLines(rets, |rets|));
        return;
      }
    }
    return true;
  }

  lemma LineOnOverrun(render: Render, line: Line)
    ensures PutLine(render)(Overrun, line).Overrun?
  {
    LineIs(render, Overrun, line);
  }

  lemma TitlesAreCopied(render: Render)
    ensures forall b: Buf :: PutLine(render)(b, ArgumentsTitle) == Put(b, ARGUMENTS_TITLE)
    ensures forall b: Buf :: PutLine(render)(b, ReturnValuesTitle) == Put(b, RETURN_VALUES_TITLE)
  {
    hide Put;
    forall b: Buf
      ensures PutLine(render)(b, ArgumentsTitle) == Put(b, ARGUMENTS_TITLE)
      ensures PutLine(render)(b, ReturnValuesTitle) == Put(b, RETURN_VALUES_TITLE)
    {
      LineIs(render, b, ArgumentsTitle);
      LineIs(render, b, ReturnValuesTitle);
    }
  }

  /** `format_interface`. */
  method FormatInterface(dest: GrowBuffer, id: u32, info: InfoRecord, render: Render) returns (ok: bool)
    requires dest.Valid()
    modifies dest, dest.data
    ensures dest.data == old(dest.data) || fresh(dest.data)
    ensures var b := PutEach(PutLine(render), old(dest.State()), InterfaceLines(id, info));
            (ok <==> b.Buf?) && (ok ==> dest.Valid() && dest.State() == b)
  {
    hide PutEach, PutLine, Wellformed, InterfaceLines, ArgumentLines, ReturnValueLines;
    FormatInStages(render, dest.State(), id, info);
    LineOnOverrun(render, ArgumentsTitle);
    LineOnOverrun(render, ReturnValuesTitle);
    TitlesAreCopied(render);
    OverrunStays(render, ArgumentLines(info.args, |info.args|));
    OverrunStays(render, ReturnValueLines(info.rets, |info.rets|));
    ok := AppendLine(dest, Heading(id, info.name, info.description), render);
    if ok {
      ok := dest.Append(ARGUMENTS_TITLE);
    }
    if ok {
      ok := AppendArguments(dest, info.args, render);
    }
    if ok {
      ok := dest.Append(RETURN_VALUES_TITLE);
    }
    if ok {
      ok := AppendReturnValues(dest, info.rets, render);
    }
  }

  /** `proc_read`: the loop over the table, the size check and the copy. */
  method Read(table: InterfaceTable, entry: nat, count: nat, pos: nat, render: Render) returns (x: ReadResult)
    requires table.Valid()
    ensures x == ReadFile(table.state, entry, count, pos, render)
  {
    hide PutEach, PutLine, Wellformed, InterfaceLines, FileLines, Members;
    if pos > 0 {
      return Reads(0, pos, []);
    }
    var dest := new GrowBuffer();
    ghost var order, recs, put := table.state.order, table.state.recs, PutLine(render);
    ghost var lines := FileLines(Members(order, recs, entry), recs);
    NoLines(render, EMPTY);
    NoMembers(order, recs, entry);
    for i := 0 to |table.list|
      invariant dest.Valid() && fresh(dest) && fresh(dest.data)
      invariant dest.State() == PutEach(put, EMPTY, FileLines(Members(order[..i], recs, entry), recs))
    {
      var interface := table.list[i];
      ghost var done := FileLines(Members(order[..i], recs, entry), recs);
      OneMoreMember(order, recs, entry, i);
      if interface.proc == entry {
        ghost var more := InterfaceLines(interface.id, interface.info);
        PutEachConcat(put, EMPTY, done, more);
        var ok := FormatInterface(dest, interface.id, interface.info, render);
        if !ok {
          FilePrefix(order, recs, entry, i + 1);
          PrefixOverruns(render, EMPTY, done + more, lines);
          return Overflows;
        }
      }
    }
    assert order[..|order|] == order;
    if count < dest.length {
      return Reads(-1, 0, []);
    }
    return Reads(dest.length, dest.length, dest.data[..dest.length]);
  }

  lemma NoMembers(order: seq<u32>, recs: map<u32, R.Rec>, entry: nat)
    ensures FileLines(Members(order[..0], recs, entry), recs) == []
  {
    assert order[..0] == [];
  }

  lemma OneMoreMember(order: seq<u32>, recs: map<u32, R.Rec>, entry: nat, i: nat)
    requires i < |order|
    ensures var done, more := Members(order[..i], recs, entry), Members(order[..i + 1], recs, entry);
            if Belongs(recs, order[i], entry)
            then FileLines(more, recs) == FileLines(done, recs) + InterfaceLines(order[i], recs[order[i]].info)
            else more == done
  {
    hide InterfaceLines;
    assert order[..i + 1][..i] == order[..i];
    var done := Members(order[..i], recs, entry);
    assert (done + [order[i]])[..|done|] == done;
  }

  /** What the loop has formatted is the beginning of the file. */
  lemma {:induction false} FilePrefix(order: seq<u32>, recs: map<u32, R.Rec>, entry: nat, n: nat)
    requires n <= |order|
    ensures FileLines(Members(order[..n], recs, entry), recs) <= FileLines(Members(order, recs, entry), recs)
    decreases |order| - n
  {
    hide InterfaceLines, Members, FileLines;
    if n == |order| {
      assert order[..n] == order;
    } else {
      FilePrefix(order, recs, entry, n + 1);
      OneMoreMember(order, recs, entry, n);
    }
  }

  // ---- what a file shows ----

  /** Each argument's line, by its position, with the zero flag of registration. */
  function ArgumentsText(args: seq<Attr<Option<CStr>>>, render: Render): seq<byte> {
    if args == [] then []
    else
      var init := args[..|args| - 1];
      ArgumentsText(init, render) + render(ArgumentLine(|init|, 0, args[|init|]))
  }

  function ReturnValuesText(rets: seq<Attr<Option<CStr>>>, render: Render): seq<byte> {
    if rets == [] then []
    else
      var init := rets[..|rets| - 1];
      ReturnValuesText(init, render) + render(ReturnValueLine(|init|, 0, rets[|init|]))
  }

  /** The text of one interface: its heading, its arguments in order, its return values in order. */
  function InterfaceText(id: u32, info: InfoRecord, render: Render): seq<byte> {
    render(Heading(id, info.name, info.description))
    + ARGUMENTS_TITLE + ArgumentsText(info.args, render)
    + RETURN_VALUES_TITLE + ReturnValuesText(info.rets, render)
  }

  /** Every line of it that is formatted fits the formatting array. */
  ghost predicate InterfaceFits(id: u32, info: InfoRecord, render: Render) {
    && |render(Heading(id, info.name, info.description))| < LINE_ROOM
    && (forall j {:trigger info.args[j]} | 0 <= j < |info.args| ::
          |render(ArgumentLine(j, 0, info.args[j]))| < LINE_ROOM)
    && (forall j {:trigger info.rets[j]} | 0 <= j < |info.rets| ::
          |render(ReturnValueLine(j, 0, info.rets[j]))| < LINE_ROOM)
  }

  /** The lines `format_interface` appends, by position. */
  lemma InterfaceLinesAt(id: u32, info: InfoRecord)
    ensures var lines, n := InterfaceLines(id, info), |info.args|;
            && |lines| == 3 + n + |info.rets|
            && lines[0] == Heading(id, info.name, info.description)
            && lines[1] == ArgumentsTitle && lines[2 + n] == ReturnValuesTitle
            && (forall j {:trigger info.args[j]} | 0 <= j < n :: lines[2 + j] == ArgumentLine(j, 0, info.args[j]))
            && (forall j {:trigger info.rets[j]} | 0 <= j < |info.rets| ::
                  lines[3 + n + j] == ReturnValueLine(j, 0, info.rets[j]))
  {
  }

  lemma {:induction false} ArgumentLinesText(args: seq<Attr<Option<CStr>>>, render: Render)
    ensures EncodeAll(Text(render), ArgumentLines(args, |args|)) == ArgumentsText(args, render)
  {
    if args != [] {
      var n := |args| - 1;
      ArgumentLinesText(args[..n], render);
      assert ArgumentLines(args, n + 1) == ArgumentLines(args[..n], n) + [ArgumentLine(n, 0, args[n])];
      EncodeAllLast(Text(render), ArgumentLines(args[..n], n), ArgumentLine(n, 0, args[n]));
      TextIs(render, ArgumentLine(n, 0, args[n]));
    }
  }

  lemma {:induction false} ReturnValueLinesText(rets: seq<Attr<Option<CStr>>>, render: Render)
    ensures EncodeAll(Text(render), ReturnValueLines(rets, |rets|)) == ReturnValuesText(rets, render)
  {
    if rets != [] {
      var n := |rets| - 1;
      ReturnValueLinesText(rets[..n], render);
      assert ReturnValueLines(rets, n + 1) == ReturnValueLines(rets[..n], n) + [ReturnValueLine(n, 0, rets[n])];
      EncodeAllLast(Text(render), ReturnValueLines(rets[..n], n), ReturnValueLine(n, 0, rets[n]));
      TextIs(render, ReturnValueLine(n, 0, rets[n]));
    }
  }

  lemma InterfaceLinesText(id: u32, info: InfoRecord, render: Render)
    ensures EncodeAll(Text(render), InterfaceLines(id, info)) == InterfaceText(id, info, render)
  {
    hide EncodeAll, ArgumentLines, ReturnValueLines, ArgumentsText, ReturnValuesText, Text;
    var text, none: seq<Line> := Text(render), [];
    var heading := Heading(id, info.name, info.description);
    var args, rets := ArgumentLines(info.args, |info.args|), ReturnValueLines(info.rets, |info.rets|);
    NothingToEncode(render);
    TextIs(render, heading);
    TextIs(render, ArgumentsTitle);
    TextIs(render, ReturnValuesTitle);
    EncodeAllLast(text, none, heading);
    EncodeAllLast(text, none + [heading], ArgumentsTitle);
    assert none + [heading] + [ArgumentsTitle] == [heading, ArgumentsTitle];
    EncodeAllConcat(text, [heading, ArgumentsTitle], args);
    EncodeAllLast(text, [heading, ArgumentsTitle] + args, ReturnValuesTitle);
    EncodeAllConcat(text, [heading, ArgumentsTitle] + args + [ReturnValuesTitle], rets);
    ArgumentLinesText(info.args, render);
    ReturnValueLinesText(info.rets, render);
  }

  lemma InterfaceLinesFit(id: u32, info: InfoRecord, render: Render)
    ensures (forall line | line in InterfaceLines(id, info) :: LineFits(render, line)) <==>
            InterfaceFits(id, info, render)
  {
    InterfaceLinesAt(id, info);
    hide InterfaceLines;
    var lines, n := InterfaceLines(id, info), |info.args|;
    if forall line | line in lines :: LineFits(render, line) {
      assert lines[0] in lines;
      forall j {:trigger info.args[j]} | 0 <= j < n ensures LineFits(render, ArgumentLine(j, 0, info.args[j])) {
        assert lines[2 + j] in lines;
      }
      forall j {:trigger info.rets[j]} | 0 <= j < |info.rets|
        ensures LineFits(render, ReturnValueLine(j, 0, info.rets[j]))
      {
        assert lines[3 + n + j] in lines;
      }
    }
    if InterfaceFits(id, info, render) {
      forall k | 0 <= k < |lines| ensures LineFits(render, lines[k]) {
        if 2 <= k < 2 + n {
          assert lines[k] == ArgumentLine(k - 2, 0, info.args[k - 2]);
        } else if 2 + n < k {
          assert lines[k] == ReturnValueLine(k - 3 - n, 0, info.rets[k - 3 - n]);
        }
      }
    }
  }

  lemma {:induction false} FileLinesFit(ids: seq<u32>, recs: map<u32, R.Rec>, render: Render)
    ensures (forall line | line in FileLines(ids, recs) :: LineFits(render, line)) <==>
            (forall id | id in ids && id in recs :: InterfaceFits(id, recs[id].info, render))
  {
    hide InterfaceLines, LineFits, InterfaceFits;
    if ids != [] {
      var init, last := ids[..|ids| - 1], ids[|ids| - 1];
      assert ids == init + [last];
      FileLinesFit(init, recs, render);
      if last in recs { InterfaceLinesFit(last, recs[last].info, render); }
    }
  }

  function FileText(ids: seq<u32>, recs: map<u32, R.Rec>, render: Render): seq<byte> {
    if ids == [] then []
    else
      var init, last := FileText(ids[..|ids| - 1], recs, render), ids[|ids| - 1];
      if last in recs then init + InterfaceText(last, recs[last].info, render) else init
  }

  lemma {:induction false} FileTextIsLines(ids: seq<u32>, recs: map<u32, R.Rec>, render: Render)
    ensures FileText(ids, recs, render) == EncodeAll(Text(render), FileLines(ids, recs))
  {
    hide InterfaceLines, EncodeAll, InterfaceText;
    if ids != [] {
      var last := ids[|ids| - 1];
      FileTextIsLines(ids[..|ids| - 1], recs, render);
      if last in recs {
        EncodeAllConcat(Text(render), FileLines(ids[..|ids| - 1], recs), InterfaceLines(last, recs[last].info));
        InterfaceLinesText(last, recs[last].info, render);
      }
    } else {
      NothingToEncode(render);
    }
  }

  lemma NothingToEncode(render: Render)
    ensures EncodeAll(Text(render), []) == []
  {
  }

  /** A read from the start that is defined yields exactly the texts of the entry's interfaces one
      after the other, if the reader's buffer holds them all, and an error otherwise; it moves the
      position to the end. From any other position it yields nothing and no error. Up to the 32-bit limit it
      is defined exactly when every line fits the formatting array. */
  lemma ReadExactly(r: R.Registry, entry: nat, count: nat, render: Render)
    ensures var ids := Members(r.order, r.recs, entry);
            var text := FileText(ids, r.recs, render);
            var x := ReadFile(r, entry, count, 0, render);
            && (x.Reads? ==> x == if count < |text| then Reads(-1, 0, []) else Reads(|text|, |text|, text))
            && (forall pos: nat | pos > 0 :: ReadFile(r, entry, count, pos, render) == Reads(0, pos, []))
            && (|text| <= U32_LIMIT - 2 * BUFFER_INC_SIZE ==>
                  (x.Reads? <==> forall id | id in ids && id in r.recs :: InterfaceFits(id, r.recs[id].info, render)))
  {
    hide PutEach, EncodeAll, FileLines, FileText, Members, PutLine, InterfaceFits, LineFits;
    var ids := Members(r.order, r.recs, entry);
    var lines := FileLines(ids, r.recs);
    FileTextIsLines(ids, r.recs, render);
    FileLinesFit(ids, r.recs, render);
    LinesAppend(render);
    PutEachAppends(PutLine(render), Text(render), EMPTY, lines);
    if |EncodeAll(Text(render), lines)| <= U32_LIMIT - 2 * BUFFER_INC_SIZE { LinesFitExactly(render, lines); }
  }

  lemma {:induction false} LinesFitExactly(render: Render, lines: seq<Line>)
    requires |EncodeAll(Text(render), lines)| <= U32_LIMIT - 2 * BUFFER_INC_SIZE
    ensures PutEach(PutLine(render), EMPTY, lines).Buf? <==> forall line | line in lines :: LineFits(render, line)
  {
    hide Put, Wellformed;
    if lines != [] {
      var init, last := lines[..|lines| - 1], lines[|lines| - 1];
      assert lines == init + [last];
      LinesFitExactly(render, init);
      LinesAppend(render);
      EmptyIsWellformed();
      PutEachAppends(PutLine(render), Text(render), EMPTY, init);
      if LineFits(render, last) { PutFitsExactly(PutEach(PutLine(render), EMPTY, init), LineText(render, last)); }
      LineIs(render, PutEach(PutLine(render), EMPTY, init), last);
      TextIs(render, last);
    }
  }

  // ---- the files partition the registry ----

  /** The listed interfaces that a process registered, in order. */
  function OfProcess(ops: seq<Runs.Op>, order: seq<u32>, pid: int): seq<u32> {
    if order == [] then []
    else
      var init, last := OfProcess(ops, order[..|order| - 1], pid), order[|order| - 1];
      if Runs.PidOf(ops, last) == Some(pid) then init + [last] else init
  }

  /** The interfaces of the first `n` procfs entries. */
  function AllFiles(order: seq<u32>, recs: map<u32, R.Rec>, n: nat): seq<u32> {
    if n == 0 then [] else AllFiles(order, recs, n - 1) + Members(order, recs, n - 1)
  }

  lemma {:induction false} FileIsProcess(ops: seq<Runs.Op>, r: R.Registry, order: seq<u32>, id: u32)
    requires R.Grouped(r) && id in r.recs && forall k | k in order :: k in r.recs
    requires forall k | k in r.recs :: Runs.PidOf(ops, k) == Some(r.recs[k].pid)
    ensures Members(order, r.recs, r.recs[id].proc) == OfProcess(ops, order, r.recs[id].pid)
  {
    hide Runs.PidOf;
    if order != [] { FileIsProcess(ops, r, order[..|order| - 1], id); }
  }

  lemma {:induction false} MemberCount(order: seq<u32>, recs: map<u32, R.Rec>, entry: nat, id: u32)
    ensures multiset(Members(order, recs, entry))[id] == if Belongs(recs, id, entry) then multiset(order)[id] else 0
  {
    if order != [] {
      MemberCount(order[..|order| - 1], recs, entry, id);
      assert order == order[..|order| - 1] + [order[|order| - 1]];
    }
  }

  lemma {:induction false} FilesCount(order: seq<u32>, recs: map<u32, R.Rec>, n: nat, id: u32)
    ensures multiset(AllFiles(order, recs, n))[id] == if id in recs && recs[id].proc < n then multiset(order)[id] else 0
  {
    hide Members;
    if n > 0 {
      FilesCount(order, recs, n - 1, id);
      MemberCount(order, recs, n - 1, id);
    }
  }

  /** In every reachable state a process's procfs file lists exactly the interfaces which that process
      registered, in the order of the array, and the files together list every position of the
      array once. */
  lemma FilesPartitionRegistry(ops: seq<Runs.Op>)
    requires Runs.Proper(ops)
    ensures var r := Runs.Run(ops).value;
            && multiset(AllFiles(r.order, r.recs, r.entries)) == multiset(r.order)
            && forall id | id in r.recs ::
                 && Runs.PidOf(ops, id).Some?
                 && Members(r.order, r.recs, r.recs[id].proc) == OfProcess(ops, r.order, Runs.PidOf(ops, id).value)
  {
    hide Runs.Run, Runs.PidOf, AllFiles, Members, OfProcess;
    Runs.RunKeepsValid(ops);
    Runs.RecordedUnderRegistrant(ops);
    var r := Runs.Run(ops).value;
    forall id: u32 ensures multiset(AllFiles(r.order, r.recs, r.entries))[id] == multiset(r.order)[id] {
      FilesCount(r.order, r.recs, r.entries, id);
      assert id in r.order <==> id in r.recs;
    }
    forall id | id in r.recs
      ensures Members(r.order, r.recs, r.recs[id].proc) == OfProcess(ops, r.order, r.recs[id].pid)
    {
      FileIsProcess(ops, r, r.order, id);
    }
  }
}
