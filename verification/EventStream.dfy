/** The event-stream wire format: `writeEvent`, `singleLine` and the serve loop of realtime/sse.go
    against the stream interpretation of sections 9.2.5 and 9.2.6 of the WHATWG HTML Living Standard. */
module EventStream {
  import opened Text

  datatype Event = Event(id: string, name: string, data: string)

  /** What the serve loop writes, in the order in which its select fires. */
  datatype Item = Send(event: Event) | Heartbeat

  // ---- the printer ----

  /** strings.ReplaceAll with a one-character text and the empty text. */
  function Without(s: string, c: char): (r: string)
    ensures Free(r, c)
  {
    if s == "" then ""
    else if s[0] == c then Without(s[1..], c)
    else [s[0]] + Without(s[1..], c)
  }

  /** Removing a character keeps the others, in order. */
  lemma {:induction false} WithoutJoins(a: string, b: string, c: char)
    ensures Without(a + b, c) == Without(a, c) + Without(b, c)
    ensures Without([c], c) == "" && forall d :: d != c ==> Without([d], c) == [d]
  {
    if a == "" {
      assert a + b == b;
    } else {
      assert (a + b)[1..] == a[1..] + b;
      WithoutJoins(a[1..], b, c);
    }
  }

  lemma {:induction false} WithoutKeepsFree(s: string, c: char, d: char)
    requires Free(s, d)
    ensures Free(Without(s, c), d)
  {
    if s != "" {
      WithoutKeepsFree(s[1..], c, d);
    }
  }

  function SingleLine(value: string): string {
    Without(Without(value, '\r'), '\n')
  }

  const ID := "id: "
  const EVENT := "event: "
  const DATA := "data: "
  const KEEPALIVE := ": keepalive\n\n"

  /** Each line followed by a line feed. */
  function Terminated(lines: seq<string>): string {
    if lines == [] then "" else lines[0] + "\n" + Terminated(lines[1..])
  }

  function Prefixed(prefix: string, lines: seq<string>): (r: seq<string>)
    ensures |r| == |lines| && forall i :: 0 <= i < |r| ==> r[i] == prefix + lines[i]
  {
    seq(|lines|, i requires 0 <= i < |lines| => prefix + lines[i])
  }

  function DataLines(data: string): seq<string> {
    Split(Without(data, '\r'), '\n')
  }

  /** The lines of one item, the blank line that ends it included. */
  function ItemLines(item: Item): seq<string> {
    match item
    case Heartbeat => [": keepalive", ""]
    case Send(e) =>
      (if e.id != "" then [ID + SingleLine(e.id)] else [])
      + (if e.name != "" then [EVENT + SingleLine(e.name)] else [])
      + Prefixed(DATA, DataLines(e.data)) + [""]
  }

  function Encode(item: Item): string {
    Terminated(ItemLines(item))
  }

  function EncodeAll(items: seq<Item>): string {
    if items == [] then "" else Encode(items[0]) + EncodeAll(items[1..])
  }

  // ---- the standard's reader ----

  datatype Message = Message(data: string, kind: string, lastEventId: string)

  /** The data buffer, the event type buffer, the last event ID buffer and what was dispatched. */
  datatype Reader = Reader(data: string, kind: string, id: string, dispatched: seq<Message>)

  const START := Reader("", "", "", [])

  /** Section 9.2.5: lines end at CR LF, at LF or at CR; what follows the last line end is no line. */
  function Lines(stream: string): seq<string>
    decreases |stream|
  {
    var n := LineLength(stream);
    if n == |stream| then []
    else if stream[n] == '\r' && n + 1 < |stream| && stream[n + 1] == '\n' then [stream[..n]] + Lines(stream[n + 2..])
    else [stream[..n]] + Lines(stream[n + 1..])
  }

  function LineLength(s: string): (n: nat)
    ensures n <= |s|
  {
    if s == "" || s[0] == '\r' || s[0] == '\n' then 0 else 1 + LineLength(s[1..])
  }

  /** Section 9.2.6, the field that a line sets. */
  function FieldOf(line: string): (string, string) {
    var n := Until(line, ':');
    if n == |line| then (line, "")
    else
      var value := line[n + 1..];
      (line[..n], if value != "" && value[0] == ' ' then value[1..] else value)
  }

  /** Section 9.2.6, processing one field. The reconnection time that "retry" sets is not part of
      a message, so that field and unknown ones change nothing here. */
  function ProcessField(r: Reader, name: string, value: string): Reader {
    if name == "event" then r.(kind := value)
    else if name == "data" then r.(data := r.data + value + "\n")
    else if name == "id" then (if Free(value, '\0') then r.(id := value) else r)
    else r
  }

  /** Section 9.2.6, dispatching the event. */
  function Dispatch(r: Reader): Reader {
    if r.data == "" then r.(kind := "")
    else
      var data := if r.data[|r.data| - 1] == '\n' then r.data[..|r.data| - 1] else r.data;
      var message := Message(data, if r.kind != "" then r.kind else "message", r.id);
      Reader("", "", r.id, r.dispatched + [message])
  }

  function ProcessLine(r: Reader, line: string): Reader {
    if line == "" then Dispatch(r)
    else if line[0] == ':' then r
    else
      var (name, value) := FieldOf(line);
      ProcessField(r, name, value)
  }

  function Process(r: Reader, lines: seq<string>): Reader
    decreases |lines|
  {
    if lines == [] then r else Process(ProcessLine(r, lines[0]), lines[1..])
  }

  /** One leading byte order mark is not part of the stream. */
  function Decoded(stream: string): string {
    if stream != "" && stream[0] == '\U{FEFF}' then stream[1..] else stream
  }

  /** The messages that a reader dispatches for a stream; at its end what is pending is dropped. */
  function Messages(stream: string): seq<Message> {
    Process(START, Lines(Decoded(stream))).dispatched
  }

  // ---- what a reader should see ----

  function IdAfter(item: Item, id: string): string {
    if item.Send? && item.event.id != "" then SingleLine(item.event.id) else id
  }

  /** One message per event: its data without CR, its name without CR and LF or the default type,
      and the last ID written so far; heartbeats are invisible. */
  function Expected(items: seq<Item>, id: string): seq<Message> {
    if items == [] then []
    else
      var after := IdAfter(items[0], id);
      (match items[0]
       case Heartbeat => []
       case Send(e) =>
         [Message(Without(e.data, '\r'), if SingleLine(e.name) != "" then SingleLine(e.name) else "message", after)])
      + Expected(items[1..], after)
  }

  /** The IDs the round trip is promised for: the standard drops an ID that holds a NUL. */
  predicate PlainIds(items: seq<Item>) {
    forall i :: 0 <= i < |items| && items[i].Send? ==> Free(items[i].event.id, '\0')
  }

  // ---- lines come back ----

  predicate OneLine(s: string) {
    Free(s, '\r') && Free(s, '\n')
  }

  ghost predicate OneLines(lines: seq<string>) {
    forall i :: 0 <= i < |lines| ==> OneLine(lines[i])
  }

  lemma {:induction false} LineLengthOf(line: string, rest: string)
    requires OneLine(line) && (rest == "" || rest[0] == '\n')
    ensures LineLength(line + rest) == |line|
  {
    if line == "" {
      assert line + rest == rest;
    } else {
      LineLengthOf(line[1..], rest);
      assert (line + rest)[1..] == line[1..] + rest;
    }
  }

  lemma LinesOfOne(line: string, rest: string)
    requires OneLine(line)
    ensures Lines(line + "\n" + rest) == [line] + Lines(rest)
  {
    var s := line + ("\n" + rest);
    assert line + "\n" + rest == s;
    LineLengthOf(line, "\n" + rest);
    assert s[..|line|] == line && s[|line| + 1..] == rest;
  }

  lemma LinesWithin(line: string, n: nat)
    requires OneLine(line) && n <= |line|
    ensures Lines(line[..n]) == []
  {
    LineLengthOf(line[..n], "");
    assert line[..n] + "" == line[..n];
  }

  /** Cutting a stream of terminated lines anywhere leaves the first of them, all of them only if
      nothing is cut. */
  lemma {:induction false} LinesOfCut(lines: seq<string>, n: nat) returns (k: nat)
    requires OneLines(lines) && n <= |Terminated(lines)|
    ensures k <= |lines| && Lines(Terminated(lines)[..n]) == lines[..k]
    ensures k == |lines| <==> n == |Terminated(lines)|
  {
    hide Lines, OneLine;
    if lines == [] {
      LinesOfNothing();
      k := 0;
    } else {
      var line, rest := lines[0], Terminated(lines[1..]);
      var s := Terminated(lines);
      assert s == line + ("\n" + rest);
      if n <= |line| {
        assert line[..n] == s[..n];
        LinesWithin(line, n);
        k := 0;
      } else {
        var m := n - |line| - 1;
        k := LinesOfCut(lines[1..], m);
        assert s[..n] == line + "\n" + rest[..m];
        LinesOfOne(line, rest[..m]);
        assert lines[..k + 1] == [line] + lines[1..][..k];
        k := k + 1;
      }
    }
  }

  lemma TerminatedThen(lines: seq<string>, rest: string)
    requires lines != []
    ensures Terminated(lines) + rest == lines[0] + "\n" + (Terminated(lines[1..]) + rest)
  {
  }

  lemma {:induction false} LinesOfWhole(lines: seq<string>, rest: string)
    requires OneLines(lines)
    ensures Lines(Terminated(lines) + rest) == lines + Lines(rest)
  {
    hide Lines, OneLine, Terminated;
    if lines == [] {
      TerminatedNothing(rest);
    } else {
      TerminatedThen(lines, rest);
      LinesOfOne(lines[0], Terminated(lines[1..]) + rest);
      LinesOfWhole(lines[1..], rest);
    }
  }

  lemma TerminatedNothing(rest: string)
    ensures Terminated([]) + rest == rest
  {
  }

  lemma {:induction false} ProcessAppend(r: Reader, a: seq<string>, b: seq<string>)
    ensures Process(r, a + b) == Process(Process(r, a), b)
    decreases |a|
  {
    hide ProcessLine;
    if a == [] {
      assert a + b == b;
    } else {
      assert (a + b)[1..] == a[1..] + b;
      ProcessAppend(ProcessLine(r, a[0]), a[1..], b);
    }
  }

  /** Only a blank line dispatches. */
  lemma {:induction false} NothingDispatched(r: Reader, lines: seq<string>)
    requires forall i :: 0 <= i < |lines| ==> lines[i] != ""
    ensures Process(r, lines).dispatched == r.dispatched
    decreases |lines|
  {
    if lines != [] {
      NothingDispatched(ProcessLine(r, lines[0]), lines[1..]);
    }
  }

  /** The text of an event, byte by byte: the two fields that may be missing, a line for each line of the
      data, and a blank line. */
  lemma EventText(e: Event)
    ensures Encode(Send(e))
            == (if e.id != "" then "id: " + SingleLine(e.id) + "\n" else "")
               + (if e.name != "" then "event: " + SingleLine(e.name) + "\n" else "")
               + Terminated(Prefixed("data: ", Split(Without(e.data, '\r'), '\n'))) + "\n"
  {
    hide SingleLine, Without, Split, Prefixed, Terminated;
    var idLines := if e.id != "" then ["id: " + SingleLine(e.id)] else [];
    var nameLines := if e.name != "" then ["event: " + SingleLine(e.name)] else [];
    var dataLines := Prefixed("data: ", Split(Without(e.data, '\r'), '\n'));
    assert ItemLines(Send(e)) == idLines + nameLines + dataLines + [""];
    TerminatedAppend(idLines + nameLines + dataLines, [""]);
    TerminatedAppend(idLines + nameLines, dataLines);
    TerminatedAppend(idLines, nameLines);
    TerminatedNothing("");
    TerminatedOne("id: " + SingleLine(e.id));
    TerminatedOne("event: " + SingleLine(e.name));
    TerminatedOne("");
  }

  lemma TerminatedOne(line: string)
    ensures Terminated([line]) == line + "\n" && Terminated([]) == ""
  {
    assert [line][1..] == [];
  }

  // ---- one item ----

  lemma FieldLine(r: Reader, name: string, value: string)
    requires name != "" && Free(name, ':')
    ensures ProcessLine(r, name + ": " + value) == ProcessField(r, name, value)
  {
    var line := name + ": " + value;
    assert line == name + (": " + value);
    UntilOf(name, ':', ": " + value);
    assert line[..|name|] == name && line[|name| + 1..] == " " + value;
  }

  /** The data lines fill the data buffer with the lines, each followed by a line feed. */
  lemma {:induction false} DataFills(r: Reader, lines: seq<string>)
    ensures Process(r, Prefixed(DATA, lines)) == r.(data := r.data + Terminated(lines))
    decreases |lines|
  {
    hide ProcessLine;
    var printed := Prefixed(DATA, lines);
    if lines == [] {
      assert r.data + "" == r.data;
    } else {
      FieldLine(r, "data", lines[0]);
      assert printed[0] == "data" + ": " + lines[0];
      assert printed[1..] == Prefixed(DATA, lines[1..]);
      var next := r.(data := r.data + lines[0] + "\n");
      DataFills(next, lines[1..]);
      assert next.data + Terminated(lines[1..]) == r.data + Terminated(lines);
    }
  }

  lemma {:induction false} TerminatedJoin(lines: seq<string>)
    requires |lines| >= 1
    ensures Terminated(lines) == Join(lines, '\n') + "\n"
  {
    if |lines| == 1 {
      assert Terminated(lines[1..]) == "";
    } else {
      TerminatedJoin(lines[1..]);
    }
  }

  /** The fields of an event before its data. */
  function HeadLines(e: Event): seq<string> {
    (if e.id != "" then [ID + SingleLine(e.id)] else [])
    + (if e.name != "" then [EVENT + SingleLine(e.name)] else [])
  }

  lemma HeadFills(r: Reader, e: Event)
    requires r.kind == "" && Free(e.id, '\0')
    ensures Process(r, HeadLines(e))
            == r.(id := IdAfter(Send(e), r.id), kind := SingleLine(e.name))
  {
    hide ProcessLine;
    WithoutKeepsFree(e.id, '\r', '\0');
    WithoutKeepsFree(Without(e.id, '\r'), '\n', '\0');
    var idLines := if e.id != "" then [ID + SingleLine(e.id)] else [];
    var kindLines := if e.name != "" then [EVENT + SingleLine(e.name)] else [];
    var middle := r.(id := IdAfter(Send(e), r.id));
    FieldLine(r, "id", SingleLine(e.id));
    assert ID + SingleLine(e.id) == "id" + ": " + SingleLine(e.id);
    assert Process(r, idLines) == middle;
    FieldLine(middle, "event", SingleLine(e.name));
    assert EVENT + SingleLine(e.name) == "event" + ": " + SingleLine(e.name);
    assert Process(middle, kindLines) == middle.(kind := SingleLine(e.name));
    ProcessAppend(r, idLines, kindLines);
  }

  lemma ProcessBlank(r: Reader)
    ensures Process(r, [""]) == Dispatch(r)
  {
  }

  /** From empty buffers, the lines of one item dispatch what is expected of it and leave the
      buffers empty again. */
  lemma ItemProcessed(r: Reader, item: Item)
    requires r.data == "" && r.kind == "" && PlainIds([item])
    ensures Process(r, ItemLines(item))
            == Reader("", "", IdAfter(item, r.id), r.dispatched + Expected([item], r.id))
  {
    hide ProcessLine, Process, DataLines, HeadLines, Prefixed, Dispatch, Expected, SingleLine, Without;
    ExpectedOne(item, r.id);
    match item
    case Heartbeat =>
      KeepaliveProcessed(r);
      assert r.dispatched + [] == r.dispatched;
    case Send(e) =>
      assert [item][0] == item;
      var lines := DataLines(e.data);
      var head, data := HeadLines(e), Prefixed(DATA, lines);
      EventLines(e);
      HeadFills(r, e);
      var r1 := Process(r, head);
      DataFills(r1, lines);
      var r2 := Process(r1, data);
      ProcessAppend(r, head, data + [""]);
      ProcessAppend(r1, data, [""]);
      ProcessBlank(r2);
      DataOfLines(e.data);
      DispatchData(r2, Without(e.data, '\r'));
  }

  lemma ExpectedOne(item: Item, id: string)
    ensures Expected([item], id)
            == match item
               case Heartbeat => []
               case Send(e) =>
                 [Message(Without(e.data, '\r'), if SingleLine(e.name) != "" then SingleLine(e.name) else "message",
                          IdAfter(item, id))]
  {
    assert [item][1..] == [];
  }

  lemma EventLines(e: Event)
    ensures ItemLines(Send(e)) == HeadLines(e) + (Prefixed(DATA, DataLines(e.data)) + [""])
  {
    hide DataLines, SingleLine, Prefixed;
  }

  lemma KeepaliveProcessed(r: Reader)
    requires r.data == "" && r.kind == ""
    ensures Process(r, ItemLines(Heartbeat)) == r
  {
    hide ProcessLine;
    assert ItemLines(Heartbeat)[1..] == [""];
    KeepaliveIgnored(r);
    ProcessBlank(r);
  }

  /** The data lines carry the data without carriage returns. */
  lemma DataOfLines(data: string)
    ensures Terminated(DataLines(data)) == Without(data, '\r') + "\n"
  {
    hide Split, Join;
    TerminatedJoin(DataLines(data));
    SplitThenJoin(Without(data, '\r'), '\n');
  }

  lemma DispatchData(r: Reader, data: string)
    requires r.data == data + "\n"
    ensures Dispatch(r)
            == Reader("", "", r.id, r.dispatched + [Message(data, if r.kind != "" then r.kind else "message", r.id)])
  {
  }

  lemma KeepaliveIgnored(r: Reader)
    ensures ProcessLine(r, ": keepalive") == r
  {
  }

  lemma SingleLineIsOne(value: string)
    ensures OneLine(SingleLine(value))
  {
    WithoutKeepsFree(Without(value, '\r'), '\n', '\r');
  }

  lemma HeadLinesShape(e: Event)
    ensures OneLines(HeadLines(e)) && forall i :: 0 <= i < |HeadLines(e)| ==> HeadLines(e)[i] != ""
  {
    hide SingleLine;
    SingleLineIsOne(e.id);
    SingleLineIsOne(e.name);
    assert OneLine(ID) && OneLine(EVENT);
  }

  lemma DataLinesShape(data: string)
    ensures var lines := Prefixed(DATA, DataLines(data));
            OneLines(lines) && forall i :: 0 <= i < |lines| ==> lines[i] != ""
  {
    var text := Without(data, '\r');
    SplitIsFree(text, '\n');
    SplitKeepsFree(text, '\n', '\r');
    assert OneLine(DATA);
  }

  /** An item prints as one-line texts; the last one, and no other, is blank. */
  lemma ItemLinesShape(item: Item)
    ensures OneLines(ItemLines(item))
    ensures var lines := ItemLines(item); |lines| >= 1 && lines[|lines| - 1] == ""
    ensures var lines := ItemLines(item); forall i :: 0 <= i < |lines| - 1 ==> lines[i] != ""
  {
    hide OneLine;
    assert OneLine("") && OneLine(": keepalive") by { KeepaliveShape(); }
    if item.Send? {
      HeadLinesShape(item.event);
      DataLinesShape(item.event.data);
      SendLines(item.event);
    }
  }

  lemma KeepaliveShape()
    ensures OneLine("") && OneLine(": keepalive")
  {
  }

  lemma SendLines(e: Event)
    ensures ItemLines(Send(e)) == HeadLines(e) + Prefixed(DATA, DataLines(e.data)) + [""]
  {
  }

  lemma {:induction false} SplitKeepsFree(s: string, sep: char, c: char)
    requires Free(s, c)
    ensures AllFree(Split(s, sep), c)
    decreases |s|
  {
    var n := Until(s, sep);
    if n < |s| {
      SplitKeepsFree(s[n + 1..], sep, c);
    }
  }

  // ---- the whole stream ----

  /** How many items lie whole within the first n characters of the stream. */
  function Whole(items: seq<Item>, n: nat): (w: nat)
    ensures w <= |items|
    decreases |items|
  {
    if items == [] || n < |Encode(items[0])| then 0
    else 1 + Whole(items[1..], n - |Encode(items[0])|)
  }

  lemma CutInside(item: Item, rest: seq<Item>, n: nat, r: Reader)
    requires n < |Encode(item)|
    ensures n <= |EncodeAll([item] + rest)|
    ensures Process(r, Lines(EncodeAll([item] + rest)[..n])).dispatched == r.dispatched
  {
    hide ProcessLine, ItemLines;
    ItemLinesShape(item);
    assert ([item] + rest)[1..] == rest;
    assert EncodeAll([item] + rest)[..n] == Encode(item)[..n];
    var k := LinesOfCut(ItemLines(item), n);
    NothingDispatched(r, ItemLines(item)[..k]);
  }

  lemma ItemThen(item: Item, tail: string, r: Reader)
    requires r.data == "" && r.kind == "" && PlainIds([item])
    ensures Process(r, Lines(Encode(item) + tail))
            == Process(Reader("", "", IdAfter(item, r.id), r.dispatched + Expected([item], r.id)), Lines(tail))
  {
    hide ProcessLine, ItemLines;
    ItemLinesShape(item);
    LinesOfWhole(ItemLines(item), tail);
    ProcessAppend(r, ItemLines(item), Lines(tail));
    ItemProcessed(r, item);
  }

  lemma ExpectedCons(item: Item, rest: seq<Item>, id: string)
    ensures Expected([item] + rest, id) == Expected([item], id) + Expected(rest, IdAfter(item, id))
  {
    assert ([item] + rest)[1..] == rest && [item][1..] == [];
  }

  lemma {:induction false} CutProcessed(items: seq<Item>, n: nat, r: Reader)
    requires n <= |EncodeAll(items)| && PlainIds(items)
    requires r.data == "" && r.kind == ""
    ensures Process(r, Lines(EncodeAll(items)[..n])).dispatched
            == r.dispatched + Expected(items[..Whole(items, n)], r.id)
    decreases |items|
  {
    hide Lines, Process, Expected, IdAfter, Encode, PlainIds;
    if items == [] {
      LinesOfNothing();
      ProcessNothing(r);
      ExpectedNothing(r.id);
      assert r.dispatched + [] == r.dispatched;
    } else {
      var item, rest := items[0], items[1..];
      assert items == [item] + rest;
      if n < |Encode(item)| {
        CutInside(item, rest, n, r);
        ExpectedNothing(r.id);
      } else {
        var m := n - |Encode(item)|;
        var tail := EncodeAll(rest)[..m];
        assert EncodeAll(items)[..n] == Encode(item) + tail;
        PlainIdsCons(item, rest);
        ItemThen(item, tail, r);
        CutProcessed(rest, m, Reader("", "", IdAfter(item, r.id), r.dispatched + Expected([item], r.id)));
        var w := Whole(rest, m);
        assert items[..w + 1] == [item] + rest[..w];
        ExpectedCons(item, rest[..w], r.id);
      }
    }
  }

  lemma PlainIdsCons(item: Item, rest: seq<Item>)
    ensures PlainIds([item] + rest) <==> PlainIds([item]) && PlainIds(rest)
  {
    var items := [item] + rest;
    assert forall i :: 0 <= i < |rest| ==> rest[i] == items[i + 1];
    assert forall i :: 1 <= i < |items| ==> items[i] == rest[i - 1];
    assert items[0] == item && [item][0] == item;
  }

  lemma ProcessNothing(r: Reader)
    ensures Process(r, []) == r
  {
  }

  lemma LinesOfNothing()
    ensures Lines("") == []
  {
  }

  lemma ExpectedNothing(id: string)
    ensures Expected([], id) == []
  {
  }

  lemma NoByteOrderMark(items: seq<Item>, n: nat)
    requires n <= |EncodeAll(items)|
    ensures Decoded(EncodeAll(items)[..n]) == EncodeAll(items)[..n]
  {
    if items != [] && n > 0 {
      var lines := ItemLines(items[0]);
      assert EncodeAll(items)[0] == (lines[0] + "\n")[0];
    }
  }

  /** Whatever part of the stream arrives, the reader has dispatched exactly the messages of the
      items that arrived whole: nothing of an item that is cut, and nothing else. */
  lemma CutStream(items: seq<Item>, n: nat)
    requires n <= |EncodeAll(items)| && PlainIds(items)
    ensures Messages(EncodeAll(items)[..n]) == Expected(items[..Whole(items, n)], "")
  {
    hide Lines, Process, Expected;
    NoByteOrderMark(items, n);
    CutProcessed(items, n, START);
  }

  lemma {:induction false} WholeOfAll(items: seq<Item>)
    ensures Whole(items, |EncodeAll(items)|) == |items|
  {
    if items != [] {
      WholeOfAll(items[1..]);
    }
  }

  /** The round trip: one message per event, in order, and none for a heartbeat. */
  lemma RoundTrip(items: seq<Item>)
    requires PlainIds(items)
    ensures Messages(EncodeAll(items)) == Expected(items, "")
  {
    var stream := EncodeAll(items);
    CutStream(items, |stream|);
    WholeOfAll(items);
    assert stream[..|stream|] == stream && items[..|items|] == items;
  }

  // ---- IDs with a NUL ----

  /** No ID that the reader keeps or reports holds a NUL. */
  ghost predicate IdsWithoutNul(r: Reader) {
    Free(r.id, '\0') && MessagesWithoutNul(r.dispatched)
  }

  ghost predicate MessagesWithoutNul(messages: seq<Message>) {
    forall m | m in messages :: Free(m.lastEventId, '\0')
  }

  lemma LineKeepsNulOut(r: Reader, line: string)
    requires IdsWithoutNul(r)
    ensures IdsWithoutNul(ProcessLine(r, line))
  {
    hide FieldOf;
  }

  lemma {:induction false} ReaderKeepsNulOut(r: Reader, lines: seq<string>)
    requires IdsWithoutNul(r)
    ensures IdsWithoutNul(Process(r, lines))
    decreases |lines|
  {
    hide ProcessLine, IdsWithoutNul;
    if lines != [] {
      LineKeepsNulOut(r, lines[0]);
      ReaderKeepsNulOut(ProcessLine(r, lines[0]), lines[1..]);
    }
  }

  lemma {:induction false} NulIsExpected(items: seq<Item>, id: string)
    requires !PlainIds(items)
    ensures !MessagesWithoutNul(Expected(items, id))
    decreases |items|
  {
    hide SingleLine, Without;
    var after := IdAfter(items[0], id);
    if items[0].Send? && !Free(items[0].event.id, '\0') {
      SingleLineKeepsNul(items[0].event.id);
      assert Expected(items, id)[0].lastEventId == after;
    } else {
      assert items == [items[0]] + items[1..];
      PlainIdsCons(items[0], items[1..]);
      NulIsExpected(items[1..], after);
      assert forall m | m in Expected(items[1..], after) :: m in Expected(items, id);
    }
  }

  lemma SingleLineKeepsNul(value: string)
    requires !Free(value, '\0')
    ensures !Free(SingleLine(value), '\0') && value != ""
  {
    WithoutKeeps(value, '\r', '\0');
    WithoutKeeps(Without(value, '\r'), '\n', '\0');
  }

  /** The round trip holds of exactly the streams whose IDs are free of NUL. */
  lemma RoundTripExactly(items: seq<Item>)
    ensures Messages(EncodeAll(items)) == Expected(items, "") <==> PlainIds(items)
  {
    hide Process, Lines, Decoded, Expected, PlainIds, MessagesWithoutNul;
    if PlainIds(items) {
      RoundTrip(items);
    } else {
      NulIsExpected(items, "");
      NothingHasNul();
      ReaderKeepsNulOut(START, Lines(Decoded(EncodeAll(items))));
    }
  }

  lemma NothingHasNul()
    ensures IdsWithoutNul(START)
  {
  }

  /** What happens to such an ID: the reader keeps the earlier one. */
  lemma NulIdIsDropped(e: Event, id: string)
    requires e.id != "" && !Free(e.id, '\0')
    ensures ProcessLine(Reader("", "", id, []), ID + SingleLine(e.id)).id == id
  {
    SingleLineKeepsNul(e.id);
    FieldLine(Reader("", "", id, []), "id", SingleLine(e.id));
    assert ID + SingleLine(e.id) == "id" + ": " + SingleLine(e.id);
  }

  lemma {:induction false} WithoutKeeps(s: string, c: char, d: char)
    requires !Free(s, d) && c != d
    ensures !Free(Without(s, c), d)
  {
    if s[0] == d {
      assert Without(s, c)[0] == d;
    } else {
      var i :| 0 <= i < |s| && s[i] == d;
      assert s[1..][i - 1] == d;
      WithoutKeeps(s[1..], c, d);
      var j :| 0 <= j < |Without(s[1..], c)| && Without(s[1..], c)[j] == d;
      assert s[0] != c ==> Without(s, c)[j + 1] == d;
    }
  }

  // ---- the writer ----

  /** A connection that takes `room` more characters before it fails. */
  class Connection {
    var out: string
    var room: nat

    constructor (room: nat)
      ensures out == "" && this.room == room
    {
      out, this.room := "", room;
    }

    method Write(s: string) returns (ok: bool)
      modifies this
      ensures ok <==> |s| <= old(room)
      ensures out == old(out) + (if ok then s else s[..old(room)])
      ensures room == if ok then old(room) - |s| else 0
    {
      if |s| <= room {
        out, room, ok := out + s, room - |s|, true;
      } else {
        out, room, ok := out + s[..room], 0, false;
      }
    }
  }

  /** What a run of writes leaves behind when `todo` was still to be written. */
  ghost predicate Took(before: string, room: nat, s: string, ok: bool, after: string, roomAfter: nat) {
    && (ok <==> |s| <= room)
    && after == before + (if ok then s else s[..room])
    && roomAfter == (if ok then room - |s| else 0)
  }

  lemma {:induction false} TerminatedAppend(a: seq<string>, b: seq<string>)
    ensures Terminated(a + b) == Terminated(a) + Terminated(b)
  {
    if a == [] {
      assert a + b == b;
    } else {
      assert (a + b)[1..] == a[1..] + b;
      TerminatedAppend(a[1..], b);
    }
  }

  lemma TookLine(before: string, room: nat, done: seq<string>, middle: string, roomMiddle: nat,
                 line: string, ok: bool, after: string, roomAfter: nat)
    requires Took(before, room, Terminated(done), true, middle, roomMiddle)
    requires Took(middle, roomMiddle, line + "\n", ok, after, roomAfter)
    ensures Took(before, room, Terminated(done + [line]), ok, after, roomAfter)
  {
    var s, t := Terminated(done), line + "\n";
    TerminatedAppend(done, [line]);
    assert Terminated([line]) == t;
    if !ok {
      assert (s + t)[..room] == s + t[..roomMiddle];
    }
  }

  /** A failure before the end is the failure of the whole. */
  lemma TookCut(before: string, room: nat, all: seq<string>, k: nat, after: string, roomAfter: nat)
    requires k <= |all| && Took(before, room, Terminated(all[..k]), false, after, roomAfter)
    ensures Took(before, room, Terminated(all), false, after, roomAfter)
  {
    assert all == all[..k] + all[k..];
    TerminatedAppend(all[..k], all[k..]);
  }

  /** Writes one line, the k-th of those still to write since `before`. */
  method WriteLine(w: Connection, line: string,
                   ghost all: seq<string>, ghost k: nat, ghost before: string, ghost room: nat)
    returns (ok: bool)
    requires k < |all| && all[k] == line
    requires Took(before, room, Terminated(all[..k]), true, w.out, w.room)
    modifies w
    ensures ok ==> Took(before, room, Terminated(all[..k + 1]), true, w.out, w.room)
    ensures !ok ==> Took(before, room, Terminated(all), false, w.out, w.room)
  {
    ghost var middle, roomMiddle := w.out, w.room;
    ok := w.Write(line + "\n");
    TookLine(before, room, all[..k], middle, roomMiddle, line, ok, w.out, w.room);
    assert all[..k + 1] == all[..k] + [line];
    if !ok {
      TookCut(before, room, all, k + 1, w.out, w.room);
    }
  }

  /** writeEvent: line by line, giving up at the first write that fails. Everything of the event's
      encoding is out if it succeeds, and only as much as the connection took if not. */
  method WriteEvent(w: Connection, event: Event) returns (ok: bool)
    modifies w
    ensures Took(old(w.out), old(w.room), Encode(Send(event)), ok, w.out, w.room)
  {
    hide ItemLines, Terminated, DataLines, SingleLine, Took;
    ghost var all := ItemLines(Send(event));
    ghost var before, room := w.out, w.room;
    ghost var k := 0;
    var lines := DataLines(event.data);
    SendLines(event);
    assert Took(before, room, Terminated(all[..0]), true, w.out, w.room) by { TookNothing(before, room, all); }
    if event.id != "" {
      ok := WriteLine(w, ID + SingleLine(event.id), all, k, before, room);
      if !ok { return; }
      k := k + 1;
    }
    if event.name != "" {
      ok := WriteLine(w, EVENT + SingleLine(event.name), all, k, before, room);
      if !ok { return; }
      k := k + 1;
    }
    ghost var head := k;
    for i := 0 to |lines|
      invariant k == head + i
      invariant Took(before, room, Terminated(all[..k]), true, w.out, w.room)
    {
      ok := WriteLine(w, DATA + lines[i], all, k, before, room);
      if !ok { return; }
      k := k + 1;
    }
    ok := WriteLine(w, "", all, k, before, room);
    assert all[..|all|] == all;
  }

  lemma TookNothing(out: string, room: nat, all: seq<string>)
    ensures Took(out, room, Terminated(all[..0]), true, out, room)
  {
  }

  lemma {:induction false} EncodeAllAppend(a: seq<Item>, b: seq<Item>)
    ensures EncodeAll(a + b) == EncodeAll(a) + EncodeAll(b)
  {
    hide Encode;
    if a == [] {
      assert a + b == b;
    } else {
      assert (a + b)[1..] == a[1..] + b;
      EncodeAllAppend(a[1..], b);
    }
  }

  lemma ItemTakesRoom(item: Item)
    ensures Encode(item) != ""
  {
    hide ItemLines;
    ItemLinesShape(item);
  }

  lemma {:induction false} WholeOfCut(items: seq<Item>, i: nat, extra: nat)
    requires i <= |items|
    requires if i < |items| then extra < |Encode(items[i])| else extra == 0
    ensures Whole(items, |EncodeAll(items[..i])| + extra) == i
    decreases i
  {
    hide Encode;
    if i > 0 {
      assert items[..i][0] == items[0] && items[..i][1..] == items[1..][..i - 1];
      WholeOfCut(items[1..], i - 1, extra);
    }
  }

  /** The first i items and `extra` more characters are a cut of the stream with i whole items. */
  lemma CutAt(items: seq<Item>, i: nat, extra: nat)
    requires i <= |items|
    requires if i < |items| then extra < |Encode(items[i])| else extra == 0
    ensures var out := EncodeAll(items[..i]) + (if i < |items| then Encode(items[i])[..extra] else "");
            out <= EncodeAll(items) && Whole(items, |out|) == i
  {
    hide Encode;
    WholeOfCut(items, i, extra);
    assert items == items[..i] + items[i..];
    EncodeAllAppend(items[..i], items[i..]);
  }

  lemma EncodeOneMore(items: seq<Item>, i: nat)
    requires i < |items|
    ensures EncodeAll(items[..i + 1]) == EncodeAll(items[..i]) + Encode(items[i])
  {
    hide Encode;
    assert items[..i + 1] == items[..i] + [items[i]];
    EncodeAllAppend(items[..i], [items[i]]);
    assert EncodeAll([items[i]]) == Encode(items[i]) + EncodeAll([items[i]][1..]);
  }

  lemma HeartbeatText()
    ensures Encode(Heartbeat) == KEEPALIVE
  {
    assert ItemLines(Heartbeat)[1..] == [""];
  }

  /** The serve loop over the items that its select chose, until the stream's context is done or a
      write or a flush fails. What is out is always a cut of the stream in which exactly `served`
      items are whole, so a reader sees exactly their messages. */
  method Serve(w: Connection, items: seq<Item>) returns (served: nat)
    requires w.out == ""
    modifies w
    ensures served <= |items|
    ensures w.out <= EncodeAll(items) && Whole(items, |w.out|) == served
    ensures PlainIds(items) ==> Messages(w.out) == Expected(items[..served], "")
  {
    hide Encode, Messages, Expected, Whole, PlainIds;
    ghost var extra := 0;
    served := 0;
    while served < |items|
      invariant served <= |items|
      invariant w.out == EncodeAll(items[..served])
    {
      var done := *;
      if done { break; }
      var ok;
      ghost var room := w.room;
      match items[served] {
        case Heartbeat =>
          HeartbeatText();
          ok := w.Write(KEEPALIVE);
        case Send(event) =>
          ok := WriteEvent(w, event);
      }
      if !ok {
        extra := room;
        break;
      }
      EncodeOneMore(items, served);
      served := served + 1;
      var flushed := *;
      if !flushed { break; }
    }
    if served < |items| {
      ItemTakesRoom(items[served]);
    }
    CutAt(items, served, extra);
    ghost var n := |w.out|;
    assert w.out == EncodeAll(items)[..n];
    if PlainIds(items) {
      CutStream(items, n);
    }
  }
}
