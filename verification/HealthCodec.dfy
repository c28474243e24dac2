/**
  The text form in which the server reports per-path health and chat back to the
  client: one record per line, fields parted by tabs, free text escaped.

  Text is a string of characters; the UTF-8 layer is not modelled.
*/
module HealthCodec {
  import opened ByteStrings
  import opened NumberText

  const HEALTH_REPORT_MAGIC := "irohsion-health/v2"

  datatype EndpointHealth = EndpointHealth(endpointId: string, achievedMbps: Float, lastSeq: Option<U64>,
    maxSeq: Option<U64>)

  datatype ChatMessage = ChatMessage(id: U64, unixMs: U64, user: string, text: string)

  datatype HealthReport = HealthReport(seqNo: U64, unixMs: U64, endpoints: seq<EndpointHealth>, chat: seq<ChatMessage>)

  // ---------------------------------------------------------------- escaping

  function Escape(ch: char): string {
    if ch == '\\' then "\\\\" else if ch == '\t' then "\\t" else if ch == '\n' then "\\n" else if ch == '\r' then "\\r"
      else [ch]
  }

  function EncodeText(text: string): string {
    if text == [] then [] else Escape(text[0]) + EncodeText(text[1..])
  }

  /** What an escape stands for; an unknown one stands for itself. */
  function Unescape(ch: char): string {
    if ch == '\\' then "\\" else if ch == 't' then "\t" else if ch == 'n' then "\n" else if ch == 'r' then "\r"
      else ['\\', ch]
  }

  function DecodeText(text: string): string {
    if text == [] then []
    else if text[0] != '\\' then [text[0]] + DecodeText(text[1..])
    else if |text| == 1 then "\\"
    else Unescape(text[1]) + DecodeText(text[2..])
  }

  method EncodeHealthText(text: string) returns (encoded: string)
    ensures encoded == EncodeText(text)
  {
    encoded := "";
    for i := 0 to |text|
      invariant EncodeText(text) == encoded + EncodeText(text[i..])
    {
      assert text[i..][1..] == text[i + 1..];
      encoded := encoded + Escape(text[i]);
    }
  }

  method DecodeHealthText(text: string) returns (decoded: string)
    ensures decoded == DecodeText(text)
  {
    decoded := "";
    var i := 0;
    while i < |text|
      invariant 0 <= i <= |text|
      invariant DecodeText(text) == decoded + DecodeText(text[i..])
    {
      assert text[i..][1..] == text[i + 1..];
      if text[i] != '\\' {
        decoded := decoded + [text[i]];
        i := i + 1;
      } else if i + 1 == |text| {
        decoded := decoded + "\\";
        i := i + 1;
      } else {
        assert text[i..][2..] == text[i + 2..];
        decoded := decoded + Unescape(text[i + 1]);
        i := i + 2;
      }
    }
  }

  /** Unescaping undoes escaping, for every text. */
  lemma {:induction false} TextRoundTrip(text: string)
    ensures DecodeText(EncodeText(text)) == text
  {
    if text != [] {
      TextRoundTrip(text[1..]);
      EscapeDecodes(text[0], EncodeText(text[1..]));
    }
  }

  lemma EscapeDecodes(ch: char, rest: string)
    ensures DecodeText(Escape(ch) + rest) == [ch] + DecodeText(rest)
  {
    var whole := Escape(ch) + rest;
    assert whole[|Escape(ch)|..] == rest;
  }

  predicate Plain(text: string) {
    '\t' !in text && '\n' !in text && '\r' !in text
  }

  /** Escaped text never disturbs the framing. */
  lemma {:induction false} EncodedTextIsPlain(text: string)
    ensures Plain(EncodeText(text))
  {
    if text != [] {
      EncodedTextIsPlain(text[1..]);
    }
  }

  // ---------------------------------------------------------------- fields and lines

  function Split(text: string, c: char): (fields: seq<string>)
    ensures fields != []
    decreases |text|
  {
    var i := IndexOf(text, c);
    if i == |text| then [text] else [text[..i]] + Split(text[i + 1..], c)
  }

  function Join(fields: seq<string>, c: char): string
    requires fields != []
  {
    if |fields| == 1 then fields[0] else fields[0] + [c] + Join(fields[1..], c)
  }

  predicate Without(fields: seq<string>, c: char) {
    forall i :: 0 <= i < |fields| ==> c !in fields[i]
  }

  lemma SplitFirst(front: string, c: char, rest: string)
    requires c !in front
    ensures Split(front + [c] + rest, c) == [front] + Split(rest, c)
  {
    FirstAfter(front, c, rest);
  }

  lemma {:induction false} SplitUndoesJoin(fields: seq<string>, c: char)
    requires fields != [] && Without(fields, c)
    ensures Split(Join(fields, c), c) == fields
  {
    if |fields| == 1 {
      AbsentIndex(fields[0], c);
    } else {
      hide Split, IndexOf;
      SplitUndoesJoin(fields[1..], c);
      SplitFirst(fields[0], c, Join(fields[1..], c));
      assert fields == [fields[0]] + fields[1..];
    }
  }

  lemma {:induction false} JoinIsWithout(fields: seq<string>, c: char, other: char)
    requires fields != [] && Without(fields, other) && other != c
    ensures other !in Join(fields, c)
  {
    if |fields| > 1 {
      JoinIsWithout(fields[1..], c, other);
    }
  }

  /** Fields hold no separator, and nothing that was not in the text. */
  lemma {:induction false} SplitIsWithout(text: string, c: char, other: char)
    requires other !in text
    ensures Without(Split(text, c), c) && Without(Split(text, c), other)
    decreases |text|
  {
    var i := IndexOf(text, c);
    if i < |text| {
      SplitIsWithout(text[i + 1..], c, other);
    } else {
      assert text[..i] == text;
    }
  }

  /** A line feed ends a line, together with a carriage return before it. */
  function StripReturn(line: string): string {
    if line != [] && line[|line| - 1] == '\r' then line[..|line| - 1] else line
  }

  function Lines(text: string): seq<string>
    decreases |text|
  {
    if text == [] then [] else
    var i := IndexOf(text, '\n');
    if i == |text| then [text] else [StripReturn(text[..i])] + Lines(text[i + 1..])
  }

  function Terminated(lines: seq<string>): string {
    if lines == [] then [] else lines[0] + "\n" + Terminated(lines[1..])
  }

  predicate IsLine(line: string) {
    '\n' !in line && StripReturn(line) == line
  }

  lemma {:induction false} LinesUndoesTerminated(lines: seq<string>)
    requires forall i :: 0 <= i < |lines| ==> IsLine(lines[i])
    ensures Lines(Terminated(lines)) == lines
  {
    if lines != [] {
      LinesUndoesTerminated(lines[1..]);
      FirstAfter(lines[0], '\n', Terminated(lines[1..]));
      assert IsLine(lines[0]);
      assert lines == [lines[0]] + lines[1..];
    }
  }

  lemma {:induction false} TerminatedAppend(lines: seq<string>, line: string)
    ensures Terminated(lines + [line]) == Terminated(lines) + line + "\n"
  {
    if lines == [] {
      assert (lines + [line])[1..] == [];
    } else {
      TerminatedAppend(lines[1..], line);
      assert (lines + [line])[1..] == lines[1..] + [line];
    }
  }

  lemma {:induction false} LinesHaveNoFeed(text: string)
    ensures Without(Lines(text), '\n')
    decreases |text|
  {
    if text != [] {
      var i := IndexOf(text, '\n');
      if i < |text| {
        LinesHaveNoFeed(text[i + 1..]);
      } else {
        assert text[..i] == text;
      }
    }
  }

  // ---------------------------------------------------------------- encoding

  function OptionText(value: Option<U64>): string {
    match value
    case Some(n) => Format(n)
    case None => "-"
  }

  function HeaderFields(report: HealthReport): seq<string> {
    [HEALTH_REPORT_MAGIC, Format(report.seqNo), Format(report.unixMs)]
  }

  function EndpointFields(e: EndpointHealth): seq<string> {
    ["endpoint", e.endpointId, FormatFloat(e.achievedMbps), OptionText(e.lastSeq), OptionText(e.maxSeq)]
  }

  function ChatFields(m: ChatMessage): seq<string> {
    ["chat", Format(m.id), Format(m.unixMs), EncodeText(m.user), EncodeText(m.text)]
  }

  function EndpointLines(endpoints: seq<EndpointHealth>): (lines: seq<string>)
    ensures |lines| == |endpoints|
  {
    seq(|endpoints|, (i: nat) requires i < |endpoints| => Join(EndpointFields(endpoints[i]), '\t'))
  }

  function ChatLines(chat: seq<ChatMessage>): (lines: seq<string>)
    ensures |lines| == |chat|
  {
    seq(|chat|, (i: nat) requires i < |chat| => Join(ChatFields(chat[i]), '\t'))
  }

  function EncodedLines(report: HealthReport): seq<string> {
    [Join(HeaderFields(report), '\t')] + EndpointLines(report.endpoints) + ChatLines(report.chat)
  }

  function Encode(report: HealthReport): string {
    Terminated(EncodedLines(report))
  }

  method PushLines(payload: string, lines: seq<string>, ghost before: seq<string>) returns (longer: string)
    requires payload == Terminated(before)
    ensures longer == Terminated(before + lines)
  {
    longer := payload;
    assert before + lines[..0] == before;
    for i := 0 to |lines|
      invariant longer == Terminated(before + lines[..i])
    {
      TerminatedAppend(before + lines[..i], lines[i]);
      assert before + lines[..i + 1] == before + lines[..i] + [lines[i]];
      longer := longer + lines[i] + "\n";
    }
    assert lines[..|lines|] == lines;
  }

  method EncodeHealthReport(report: HealthReport) returns (payload: string)
    ensures payload == Encode(report)
  {
    var header := Join(HeaderFields(report), '\t');
    TerminatedAppend([], header);
    assert [] + [header] == [header];
    payload := header + "\n";
    payload := PushLines(payload, EndpointLines(report.endpoints), [header]);
    payload := PushLines(payload, ChatLines(report.chat), [header] + EndpointLines(report.endpoints));
  }

  // ---------------------------------------------------------------- decoding

  function Number(fields: seq<string>, k: nat, missing: string, invalid: string): Result<U64, string> {
    if k >= |fields| then Err(missing) else
    match ParseU64(fields[k])
    case Some(n) => Ok(n)
    case None => Err(invalid)
  }

  function OptionalNumber(text: string, absent: Option<U64>, invalid: string): Result<Option<U64>, string> {
    if text == "-" then Ok(absent) else
    match ParseU64(text)
    case Some(n) => Ok(Some(n))
    case None => Err(invalid)
  }

  /** Throughput, last and perhaps newest sequence; the newest falls back to the last. */
  function DecodeValues(id: string, values: seq<string>): Result<EndpointHealth, string>
    requires 2 <= |values| <= 3
  {
    match ParseFloat(values[0])
    case None => Err("invalid achieved throughput")
    case Some(mbps) =>
      match OptionalNumber(values[1], None, "invalid last_seq")
      case Err(e) => Err(e)
      case Ok(last) =>
        match (if |values| == 3 then OptionalNumber(values[2], last, "invalid max_seq") else Ok(last))
        case Err(e) => Err(e)
        case Ok(newest) => Ok(EndpointHealth(id, mbps, last, newest))
  }

  /** Older rows have a target throughput before the achieved one. */
  function DecodeEndpoint(fields: seq<string>): Result<EndpointHealth, string> {
    if |fields| < 2 then Err("missing endpoint id")
    else if 4 <= |fields| <= 5 then DecodeValues(fields[1], fields[2..])
    else if |fields| == 6 then DecodeValues(fields[1], fields[3..])
    else Err("invalid endpoint health row")
  }

  function DecodeChat(fields: seq<string>): Result<ChatMessage, string> {
    match Number(fields, 1, "missing chat id", "invalid chat id")
    case Err(e) => Err(e)
    case Ok(id) =>
      match Number(fields, 2, "missing chat unix_ms", "invalid chat unix_ms")
      case Err(e) => Err(e)
      case Ok(unixMs) =>
        if |fields| < 4 then Err("missing chat user")
        else if |fields| < 5 then Err("missing chat text")
        else Ok(ChatMessage(id, unixMs, DecodeText(fields[3]), DecodeText(fields[4])))
  }

  datatype Rows = Rows(endpoints: seq<EndpointHealth>, chat: seq<ChatMessage>)

  function AddRow(rows: Rows, line: string): Result<Rows, string> {
    if line == [] then Ok(rows) else
    var fields := Split(line, '\t');
    if fields[0] == "chat" then
      match DecodeChat(fields)
      case Ok(m) => Ok(rows.(chat := rows.chat + [m]))
      case Err(e) => Err(e)
    else if fields[0] != "endpoint" then Err("unexpected health report row kind")
    else
      match DecodeEndpoint(fields)
      case Ok(h) => Ok(rows.(endpoints := rows.endpoints + [h]))
      case Err(e) => Err(e)
  }

  function Collect(lines: seq<string>): Result<Rows, string> {
    if lines == [] then Ok(Rows([], [])) else
    match Collect(lines[..|lines| - 1])
    case Err(e) => Err(e)
    case Ok(rows) => AddRow(rows, lines[|lines| - 1])
  }

  function DecodeHeader(line: string): Result<(U64, U64), string> {
    var fields := Split(line, '\t');
    if fields[0] != HEALTH_REPORT_MAGIC then Err("unexpected health report magic") else
    match Number(fields, 1, "missing health report seq", "invalid health report seq")
    case Err(e) => Err(e)
    case Ok(seqNo) =>
      match Number(fields, 2, "missing health report unix_ms", "invalid health report unix_ms")
      case Err(e) => Err(e)
      case Ok(unixMs) => Ok((seqNo, unixMs))
  }

  function Decode(text: string): Result<HealthReport, string> {
    var lines := Lines(text);
    if lines == [] then Err("missing health report header") else
    match DecodeHeader(lines[0])
    case Err(e) => Err(e)
    case Ok((seqNo, unixMs)) =>
      match Collect(lines[1..])
      case Err(e) => Err(e)
      case Ok(rows) => Ok(HealthReport(seqNo, unixMs, rows.endpoints, rows.chat))
  }

  /** The first bad row decides the result. */
  lemma {:induction false} ErrorsAreFinal(lines: seq<string>, i: nat)
    requires i <= |lines| && Collect(lines[..i]).Err?
    ensures Collect(lines) == Collect(lines[..i])
  {
    if i < |lines| {
      var front := lines[..|lines| - 1];
      assert front[..i] == lines[..i];
      ErrorsAreFinal(front, i);
    } else {
      assert lines[..i] == lines;
    }
  }

  method CollectRows(lines: seq<string>) returns (result: Result<Rows, string>)
    ensures result == Collect(lines)
  {
    var rows := Rows([], []);
    for i := 0 to |lines|
      invariant Collect(lines[..i]) == Ok(rows)
    {
      assert lines[..i + 1][..i] == lines[..i];
      match AddRow(rows, lines[i]) {
        case Ok(more) => rows := more;
        case Err(e) =>
          ErrorsAreFinal(lines, i + 1);
          return Err(e);
      }
    }
    assert lines[..|lines|] == lines;
    result := Ok(rows);
  }

  method DecodeHealthReport(text: string) returns (result: Result<HealthReport, string>)
    ensures result == Decode(text)
  {
    var lines := Lines(text);
    if lines == [] {
      return Err("missing health report header");
    }
    match DecodeHeader(lines[0]) {
      case Err(e) => result := Err(e);
      case Ok((seqNo, unixMs)) =>
        var rows := CollectRows(lines[1..]);
        result := match rows
          case Err(e) => Err(e)
          case Ok(r) => Ok(HealthReport(seqNo, unixMs, r.endpoints, r.chat));
    }
  }

  // ---------------------------------------------------------------- the round trip

  /** What survives the text form: throughput to four decimals, and the last sequence for an absent newest one. */
  function Canonical(e: EndpointHealth): EndpointHealth {
    e.(achievedMbps := Rounded(e.achievedMbps), maxSeq := if e.maxSeq.None? then e.lastSeq else e.maxSeq)
  }

  function CanonicalAll(endpoints: seq<EndpointHealth>): (r: seq<EndpointHealth>)
    ensures |r| == |endpoints|
  {
    seq(|endpoints|, (i: nat) requires i < |endpoints| => Canonical(endpoints[i]))
  }

  predicate CleanId(e: EndpointHealth) {
    '\t' !in e.endpointId && '\n' !in e.endpointId
  }

  predicate CleanIds(report: HealthReport) {
    forall i :: 0 <= i < |report.endpoints| ==> CleanId(report.endpoints[i])
  }

  /** The newest sequence is known whenever the last one is. */
  predicate NewestKnown(e: EndpointHealth) {
    e.lastSeq.Some? ==> e.maxSeq.Some?
  }

  lemma NumbersArePlain(n: nat)
    ensures Plain(Format(n)) && Format(n) != "-"
  {
    NotADigit(Format(n), '\t');
    NotADigit(Format(n), '\n');
    NotADigit(Format(n), '\r');
    NotADigit(Format(n), '-');
  }

  lemma ThroughputIsPlain(x: Float)
    ensures Plain(FormatFloat(x))
  {
    FloatIsPlain(x, '\t');
    FloatIsPlain(x, '\n');
    FloatIsPlain(x, '\r');
  }

  lemma OptionsArePlain(value: Option<U64>, absent: Option<U64>, invalid: string)
    ensures Plain(OptionText(value))
    ensures OptionalNumber(OptionText(value), absent, invalid) == Ok(if value.Some? then value else absent)
  {
    if value.Some? {
      NumbersArePlain(value.value);
      U64RoundTrip(value.value);
    }
  }

  lemma JoinedIsALine(fields: seq<string>)
    requires |fields| > 1 && Without(fields, '\n') && '\r' !in fields[|fields| - 1]
    ensures IsLine(Join(fields, '\t')) && Join(fields, '\t') != []
  {
    JoinIsWithout(fields, '\t', '\n');
    JoinEndsWithLast(fields, '\t');
  }

  lemma {:induction false} JoinEndsWithLast(fields: seq<string>, c: char)
    requires |fields| > 1
    ensures var text := Join(fields, c);
      text != [] && (text[|text| - 1] == c || text[|text| - 1] in fields[|fields| - 1])
  {
    var rest := fields[1..];
    if |rest| > 1 {
      JoinEndsWithLast(rest, c);
    } else {
      assert Join(fields, c) == fields[0] + [c] + fields[1];
    }
  }

  lemma EndpointFieldsAreClean(e: EndpointHealth)
    requires CleanId(e)
    ensures Without(EndpointFields(e), '\t') && IsLine(Join(EndpointFields(e), '\t'))
      && Join(EndpointFields(e), '\t') != []
  {
    ThroughputIsPlain(e.achievedMbps);
    OptionsArePlain(e.lastSeq, None, "");
    OptionsArePlain(e.maxSeq, None, "");
    JoinedIsALine(EndpointFields(e));
  }

  lemma DecodesEndpoint(e: EndpointHealth)
    ensures DecodeEndpoint(EndpointFields(e)) == Ok(Canonical(e))
  {
    FloatReadsBack(e.achievedMbps);
    OptionsArePlain(e.lastSeq, None, "invalid last_seq");
    OptionsArePlain(e.maxSeq, e.lastSeq, "invalid max_seq");
  }

  lemma AddEncodedEndpoint(rows: Rows, e: EndpointHealth)
    requires CleanId(e)
    ensures AddRow(rows, Join(EndpointFields(e), '\t')) == Ok(rows.(endpoints := rows.endpoints + [Canonical(e)]))
  {
    EndpointFieldsAreClean(e);
    SplitUndoesJoin(EndpointFields(e), '\t');
    DecodesEndpoint(e);
  }

  lemma ChatFieldsAreClean(m: ChatMessage)
    ensures Without(ChatFields(m), '\t') && IsLine(Join(ChatFields(m), '\t')) && Join(ChatFields(m), '\t') != []
  {
    NumbersArePlain(m.id);
    NumbersArePlain(m.unixMs);
    EncodedTextIsPlain(m.user);
    EncodedTextIsPlain(m.text);
    JoinedIsALine(ChatFields(m));
  }

  lemma AddEncodedChat(rows: Rows, m: ChatMessage)
    ensures AddRow(rows, Join(ChatFields(m), '\t')) == Ok(rows.(chat := rows.chat + [m]))
  {
    ChatFieldsAreClean(m);
    SplitUndoesJoin(ChatFields(m), '\t');
    U64RoundTrip(m.id);
    U64RoundTrip(m.unixMs);
    TextRoundTrip(m.user);
    TextRoundTrip(m.text);
  }

  lemma CollectOneMore(lines: seq<string>, rows: Rows, line: string, more: Rows)
    requires Collect(lines) == Ok(rows) && AddRow(rows, line) == Ok(more)
    ensures Collect(lines + [line]) == Ok(more)
  {
    assert (lines + [line])[..|lines|] == lines;
  }

  lemma EndpointLinesAppend(endpoints: seq<EndpointHealth>)
    requires endpoints != []
    ensures var n := |endpoints| - 1;
      && EndpointLines(endpoints) == EndpointLines(endpoints[..n]) + [Join(EndpointFields(endpoints[n]), '\t')]
      && CanonicalAll(endpoints) == CanonicalAll(endpoints[..n]) + [Canonical(endpoints[n])]
  {
  }

  lemma {:induction false} CollectsEndpoints(endpoints: seq<EndpointHealth>)
    requires forall i :: 0 <= i < |endpoints| ==> CleanId(endpoints[i])
    ensures Collect(EndpointLines(endpoints)) == Ok(Rows(CanonicalAll(endpoints), []))
  {
    if endpoints != [] {
      var n := |endpoints| - 1;
      var front, line := endpoints[..n], Join(EndpointFields(endpoints[n]), '\t');
      var reached, more := Rows(CanonicalAll(front), []), Rows(CanonicalAll(endpoints), []);
      CollectsEndpoints(front);
      EndpointLinesAppend(endpoints);
      assert CleanId(endpoints[n]);
      AddEncodedEndpoint(reached, endpoints[n]);
      CollectOneMore(EndpointLines(front), reached, line, more);
    }
  }

  lemma ChatLinesAppend(before: seq<string>, chat: seq<ChatMessage>)
    requires chat != []
    ensures before + ChatLines(chat)
         == before + ChatLines(chat[..|chat| - 1]) + [Join(ChatFields(chat[|chat| - 1]), '\t')]
  {
  }

  lemma AppendLast<T>(a: seq<T>, b: seq<T>)
    requires b != []
    ensures a + b[..|b| - 1] + [b[|b| - 1]] == a + b
  {
  }

  lemma {:induction false} CollectsChat(before: seq<string>, rows: Rows, chat: seq<ChatMessage>)
    requires Collect(before) == Ok(rows)
    ensures Collect(before + ChatLines(chat)) == Ok(rows.(chat := rows.chat + chat))
  {
    if chat == [] {
      assert before + ChatLines(chat) == before;
      assert rows.chat + chat == rows.chat;
    } else {
      var n := |chat| - 1;
      var front, line := chat[..n], Join(ChatFields(chat[n]), '\t');
      var reached := rows.(chat := rows.chat + front);
      CollectsChat(before, rows, front);
      AddEncodedChat(reached, chat[n]);
      AppendLast(rows.chat, chat);
      CollectOneMore(before + ChatLines(front), reached, line, rows.(chat := rows.chat + chat));
      ChatLinesAppend(before, chat);
    }
  }

  lemma DecodesHeader(report: HealthReport)
    ensures IsLine(Join(HeaderFields(report), '\t'))
    ensures DecodeHeader(Join(HeaderFields(report), '\t')) == Ok((report.seqNo, report.unixMs))
  {
    NumbersArePlain(report.seqNo);
    NumbersArePlain(report.unixMs);
    JoinedIsALine(HeaderFields(report));
    SplitUndoesJoin(HeaderFields(report), '\t');
    U64RoundTrip(report.seqNo);
    U64RoundTrip(report.unixMs);
  }

  lemma EncodedLinesAreLines(report: HealthReport)
    requires CleanIds(report)
    ensures forall i :: 0 <= i < |EncodedLines(report)| ==> IsLine(EncodedLines(report)[i])
  {
    DecodesHeader(report);
    forall i | 0 <= i < |report.endpoints|
      ensures IsLine(EndpointLines(report.endpoints)[i])
    {
      EndpointFieldsAreClean(report.endpoints[i]);
    }
    forall i | 0 <= i < |report.chat|
      ensures IsLine(ChatLines(report.chat)[i])
    {
      ChatFieldsAreClean(report.chat[i]);
    }
  }

  lemma CollectsEncodedRows(report: HealthReport)
    requires CleanIds(report)
    ensures Collect(EndpointLines(report.endpoints) + ChatLines(report.chat))
         == Ok(Rows(CanonicalAll(report.endpoints), report.chat))
  {
    CollectsEndpoints(report.endpoints);
    CollectsChat(EndpointLines(report.endpoints), Rows(CanonicalAll(report.endpoints), []), report.chat);
    assert [] + report.chat == report.chat;
  }

  lemma DecodeOfParts(text: string, header: string, lines: seq<string>, seqNo: U64, unixMs: U64, rows: Rows)
    requires Lines(text) == [header] + lines
    requires DecodeHeader(header) == Ok((seqNo, unixMs)) && Collect(lines) == Ok(rows)
    ensures Decode(text) == Ok(HealthReport(seqNo, unixMs, rows.endpoints, rows.chat))
  {
    assert Lines(text)[1..] == lines;
  }

  /** Encoding and decoding a report whose ids hold no separator gives its canonical form. */
  lemma DecodesToCanonical(report: HealthReport)
    requires CleanIds(report)
    ensures Decode(Encode(report)) == Ok(report.(endpoints := CanonicalAll(report.endpoints)))
  {
    var header, lines := Join(HeaderFields(report), '\t'), EndpointLines(report.endpoints) + ChatLines(report.chat);
    EncodedLinesAreLines(report);
    LinesUndoesTerminated(EncodedLines(report));
    assert EncodedLines(report) == [header] + lines;
    DecodesHeader(report);
    CollectsEncodedRows(report);
    DecodeOfParts(Encode(report), header, lines, report.seqNo, report.unixMs,
      Rows(CanonicalAll(report.endpoints), report.chat));
  }

  lemma DecodedEndpointIsClean(rows: Rows, line: string)
    requires '\n' !in line
    requires forall e :: e in rows.endpoints ==> CleanId(e) && NewestKnown(e)
    ensures AddRow(rows, line).Ok? ==> forall e :: e in AddRow(rows, line).value.endpoints ==>
      CleanId(e) && NewestKnown(e)
  {
    SplitIsWithout(line, '\t', '\n');
  }

  lemma {:induction false} CollectedAreClean(lines: seq<string>)
    requires Without(lines, '\n')
    ensures Collect(lines).Ok? ==> forall e :: e in Collect(lines).value.endpoints ==> CleanId(e) && NewestKnown(e)
  {
    if lines != [] {
      var n := |lines| - 1;
      CollectedAreClean(lines[..n]);
      if Collect(lines[..n]).Ok? {
        DecodedEndpointIsClean(Collect(lines[..n]).value, lines[n]);
      }
    }
  }

  /** Whatever text decodes, its ids hold no separator and its newest sequences are known. */
  lemma DecodedIsCanonical(text: string)
    ensures Decode(text).Ok? ==> forall e :: e in Decode(text).value.endpoints ==> CleanId(e) && NewestKnown(e)
  {
    LinesHaveNoFeed(text);
    if Lines(text) != [] {
      CollectedAreClean(Lines(text)[1..]);
    }
  }

  predicate AllNewestKnown(report: HealthReport) {
    forall i :: 0 <= i < |report.endpoints| ==> NewestKnown(report.endpoints[i])
  }

  predicate AllFourDecimals(report: HealthReport) {
    forall i :: 0 <= i < |report.endpoints| ==> FourDecimals(report.endpoints[i].achievedMbps)
  }

  lemma CanonicalIff(e: EndpointHealth)
    ensures Canonical(e) == e <==> NewestKnown(e) && FourDecimals(e.achievedMbps)
  {
    hide Rounded, FourDecimals;
    RoundedIff(e.achievedMbps);
  }

  lemma CanonicalAllIff(report: HealthReport)
    ensures CanonicalAll(report.endpoints) == report.endpoints <==> AllNewestKnown(report) && AllFourDecimals(report)
  {
    hide Canonical, NewestKnown, FourDecimals;
    forall i | 0 <= i < |report.endpoints|
      ensures Canonical(report.endpoints[i]) == report.endpoints[i] <==>
        NewestKnown(report.endpoints[i]) && FourDecimals(report.endpoints[i].achievedMbps)
    {
      CanonicalIff(report.endpoints[i]);
    }
    if CanonicalAll(report.endpoints) == report.endpoints {
      assert forall i :: 0 <= i < |report.endpoints| ==>
        CanonicalAll(report.endpoints)[i] == Canonical(report.endpoints[i]) == report.endpoints[i];
    }
  }

  lemma DecodedReportIsClean(text: string, report: HealthReport)
    requires Decode(text) == Ok(report)
    ensures CleanIds(report)
  {
    DecodedIsCanonical(text);
    assert forall i :: 0 <= i < |report.endpoints| ==> report.endpoints[i] in Decode(text).value.endpoints;
  }

  /**
    A report survives the text form exactly when its endpoint ids hold no tab or line feed,
    no endpoint has a last sequence without a newest one, and every finite throughput is a
    whole number of ten-thousandths. Chat text is free.
  */
  lemma ReportRoundTrip(report: HealthReport)
    ensures Decode(Encode(report)) == Ok(report) <==>
      CleanIds(report) && AllNewestKnown(report) && AllFourDecimals(report)
  {
    hide Decode, Encode, Canonical;
    CanonicalAllIff(report);
    if Decode(Encode(report)) == Ok(report) {
      DecodedReportIsClean(Encode(report), report);
    }
    if CleanIds(report) {
      DecodesToCanonical(report);
    }
  }

  // ---------------------------------------------------------------- older rows

  /** A row with a target throughput before the achieved one reads as the row without it. */
  lemma OlderRowsReadAlike(id: string, target: string, achieved: string, last: string, newest: string)
    ensures DecodeEndpoint(["endpoint", id, target, achieved, last, newest]) ==
            DecodeEndpoint(["endpoint", id, achieved, last, newest])
  {
    assert ["endpoint", id, target, achieved, last, newest][3..] == [achieved, last, newest];
    assert ["endpoint", id, achieved, last, newest][2..] == [achieved, last, newest];
    hide ParseFloat, ParseU64;
  }

  /** A row without a newest sequence reads as one that repeats the last, if that can be read. */
  lemma ShorterRowsReadAlike(id: string, achieved: string, last: string)
    ensures DecodeEndpoint(["endpoint", id, achieved, last]) == DecodeEndpoint(["endpoint", id, achieved, last, last])
  {
    assert ["endpoint", id, achieved, last][2..] == [achieved, last];
    assert ["endpoint", id, achieved, last, last][2..] == [achieved, last, last];
    hide ParseFloat, ParseU64;
  }

  // ---------------------------------------------------------------- what is refused

  /** The line is the magic, or the magic and a tab and anything. */
  predicate BearsTheMagic(line: string) {
    line == "irohsion-health/v2" || (|line| > 18 && line[..18] == "irohsion-health/v2" && line[18] == '\t')
  }

  lemma FirstField(line: string)
    ensures var i := IndexOf(line, '\t'); Split(line, '\t')[0] == line[..i]
  {
    assert line[..|line|] == line;
  }

  lemma MagicIsTheFirstField(line: string)
    ensures Split(line, '\t')[0] == HEALTH_REPORT_MAGIC <==> BearsTheMagic(line)
  {
    FirstField(line);
    var i := IndexOf(line, '\t');
    if BearsTheMagic(line) {
      assert '\t' !in HEALTH_REPORT_MAGIC;
      if |line| == 18 {
        AbsentIndex(line, '\t');
      } else {
        assert line == HEALTH_REPORT_MAGIC + ['\t'] + line[19..];
        FirstAfter(HEALTH_REPORT_MAGIC, '\t', line[19..]);
      }
    }
  }

  /**
    A header is refused for its magic exactly if it does not bear it, and accepted exactly if
    it does and two numbers in range follow.
  */
  lemma HeaderIsCheckedFirst(line: string)
    ensures DecodeHeader(line) == Err("unexpected health report magic") <==> !BearsTheMagic(line)
    ensures DecodeHeader(line).Ok? <==>
      var fields := Split(line, '\t');
      BearsTheMagic(line) && |fields| >= 3 && ParseU64(fields[1]).Some? && ParseU64(fields[2]).Some?
  {
    MagicIsTheFirstField(line);
    hide Split, ParseU64, BearsTheMagic;
    assert "missing health report seq"[0] != "unexpected health report magic"[0];
    assert "invalid health report seq"[0] != "unexpected health report magic"[0];
    assert "missing health report unix_ms"[0] != "unexpected health report magic"[0];
    assert "invalid health report unix_ms"[0] != "unexpected health report magic"[0];
  }

  lemma CollectLast(lines: seq<string>, line: string)
    ensures Collect(lines + [line]) == match Collect(lines)
      case Err(e) => Err(e)
      case Ok(rows) => AddRow(rows, line)
  {
    assert (lines + [line])[..|lines|] == lines;
  }

  /** Blank lines between the rows make no difference. */
  lemma {:induction false} BlankLinesAreSkipped(before: seq<string>, after: seq<string>)
    ensures Collect(before + [""] + after) == Collect(before + after)
  {
    if after == [] {
      CollectLast(before, "");
      assert before + [""] + after == before + [""] && before + after == before;
    } else {
      var n := |after| - 1;
      BlankLinesAreSkipped(before, after[..n]);
      CollectLast(before + [""] + after[..n], after[n]);
      CollectLast(before + after[..n], after[n]);
      assert before + [""] + after == before + [""] + after[..n] + [after[n]];
      assert before + after == before + after[..n] + [after[n]];
    }
  }

  /** A row that cannot be read. */
  predicate BadRow(line: string) {
    var fields := Split(line, '\t');
    && line != []
    && if fields[0] == "chat" then
         |fields| < 5 || ParseU64(fields[1]).None? || ParseU64(fields[2]).None?
       else fields[0] != "endpoint" || |fields| < 4 || |fields| > 6
  }

  /** After rows that can be read, one of another kind, or of the wrong length, has the report refused. */
  lemma BadRowsAreRefused(before: seq<string>, line: string, after: seq<string>)
    requires Collect(before).Ok? && BadRow(line)
    ensures Collect(before + [line] + after).Err?
    ensures Split(line, '\t')[0] != "chat" && Split(line, '\t')[0] != "endpoint" ==>
      Collect(before + [line] + after) == Err("unexpected health report row kind")
  {
    CollectLast(before, line);
    var lines, i := before + [line] + after, |before| + 1;
    assert lines[..i] == before + [line];
    hide Collect, Split, ParseU64, ParseFloat;
    ErrorsAreFinal(lines, i);
  }

  /** A report with another magic is refused for that, whatever follows. */
  lemma OtherMagicIsRefused(text: string)
    requires text != [] && !BearsTheMagic(Lines(text)[0])
    ensures Decode(text) == Err("unexpected health report magic")
  {
    hide DecodeHeader, Collect;
    HeaderIsCheckedFirst(Lines(text)[0]);
  }
}
