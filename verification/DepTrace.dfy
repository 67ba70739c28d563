/**
 The ASCII form of instruction dependency traces: `util/decode_inst_dep_trace.py` prints a
 record as a line and `util/encode_inst_dep_trace.py` parses it back.
 */
module DepTrace {
  import opened Wrappers
  import opened Text

  /** `InstDepRecord.RecordType` of `src/proto/inst_dep_record.proto`. */
  datatype RecordType = INVALID | LOAD | STORE | COMP

  datatype Record = Record(
    seqNum: nat, pc: Option<nat>, weight: Option<nat>, kind: RecordType,
    pAddr: Option<nat>, size: Option<nat>, flags: Option<nat>, compDelay: nat,
    robDep: seq<nat>, regDep: seq<nat>)

  function TypeName(t: RecordType): string {
    match t
    case INVALID => "INVALID"
    case LOAD => "LOAD"
    case STORE => "STORE"
    case COMP => "COMP"
  }

  function TypeOfName(name: string): (t: Option<RecordType>)
    ensures t.Some? ==> TypeName(t.value) == name
  {
    if name == "INVALID" then Some(INVALID)
    else if name == "LOAD" then Some(LOAD)
    else if name == "STORE" then Some(STORE)
    else if name == "COMP" then Some(COMP)
    else None
  }

  // ----- Printing -----

  function Number(n: Option<nat>, default: nat): string {
    Decimal(if n.Some? then n.value else default)
  }

  function IfPresent(n: Option<nat>): seq<string> {
    if n.Some? then [Decimal(n.value)] else []
  }

  function InfoFields(r: Record): (fields: seq<string>)
    ensures fields != []
  {
    [Decimal(r.seqNum), Number(r.pc, 0), Number(r.weight, 1), TypeName(r.kind)]
    + IfPresent(r.pAddr) + IfPresent(r.size) + IfPresent(r.flags)
    + [Decimal(r.compDelay)]
  }

  function Decimals(deps: seq<nat>): (s: seq<string>)
    ensures |s| == |deps| && forall i :: 0 <= i < |deps| ==> s[i] == Decimal(deps[i])
  {
    if deps == [] then [] else Decimals(deps[..|deps| - 1]) + [Decimal(deps[|deps| - 1])]
  }

  /** A dependency list prints as an empty field and then a comma before each number. */
  function DepField(deps: seq<nat>): string {
    Join([[]] + Decimals(deps), ',')
  }

  function PrintRecord(r: Record): string {
    Join([Join(InfoFields(r), ','), DepField(r.robDep), DepField(r.regDep)], ':')
  }

  // ----- The printed line, character by character -----

  function CommaEach(deps: seq<nat>): string {
    if deps == [] then "" else CommaEach(deps[..|deps| - 1]) + "," + Decimal(deps[|deps| - 1])
  }

  function CommaIfPresent(n: Option<nat>): string {
    if n.Some? then "," + Decimal(n.value) else ""
  }

  lemma {:induction false} DepsInFull(deps: seq<nat>)
    ensures DepField(deps) == CommaEach(deps)
  {
    var parts := [[]] + Decimals(deps);
    if deps == [] {
      assert parts == [[]];
    } else {
      var n := |deps| - 1;
      DepsInFull(deps[..n]);
      assert parts == ([[]] + Decimals(deps[..n])) + [Decimal(deps[n])];
      JoinSnoc([[]] + Decimals(deps[..n]), Decimal(deps[n]), ',');
    }
  }

  lemma JoinOptional(fields: seq<string>, n: Option<nat>)
    requires fields != []
    ensures Join(fields + IfPresent(n), ',') == Join(fields, ',') + CommaIfPresent(n)
  {
    if n.Some? {
      JoinSnoc(fields, Decimal(n.value), ',');
    } else {
      assert fields + IfPresent(n) == fields;
    }
  }

  lemma HeadInFull(a: string, b: string, c: string, d: string)
    ensures Join([a, b, c, d], ',') == a + "," + b + "," + c + "," + d
  {
    assert [a] + [b] == [a, b] && [a, b] + [c] == [a, b, c] && [a, b, c] + [d] == [a, b, c, d];
    JoinSnoc([a], b, ',');
    JoinSnoc([a, b], c, ',');
    JoinSnoc([a, b, c], d, ',');
  }

  /** The name of the type, as the proto file spells it. */
  ghost predicate Spelt(kind: RecordType, name: string) {
    && (kind == LOAD ==> name == "LOAD") && (kind == STORE ==> name == "STORE")
    && (kind == COMP ==> name == "COMP") && (kind == INVALID ==> name == "INVALID")
  }

  /** The whole line: the fields in their order, with 0 for a missing pc and 1 for a missing weight. */
  lemma PrintedInFull(r: Record, name: string)
    requires Spelt(r.kind, name)
    ensures PrintRecord(r)
         == Decimal(r.seqNum) + "," + (if r.pc.Some? then Decimal(r.pc.value) else "0")
            + "," + (if r.weight.Some? then Decimal(r.weight.value) else "1") + "," + name
            + CommaIfPresent(r.pAddr) + CommaIfPresent(r.size) + CommaIfPresent(r.flags) + "," + Decimal(r.compDelay)
            + ":" + CommaEach(r.robDep) + ":" + CommaEach(r.regDep)
  {
    var head := [Decimal(r.seqNum), Number(r.pc, 0), Number(r.weight, 1), TypeName(r.kind)];
    HeadInFull(Decimal(r.seqNum), Number(r.pc, 0), Number(r.weight, 1), TypeName(r.kind));
    JoinOptional(head, r.pAddr);
    JoinOptional(head + IfPresent(r.pAddr), r.size);
    JoinOptional(head + IfPresent(r.pAddr) + IfPresent(r.size), r.flags);
    JoinSnoc(head + IfPresent(r.pAddr) + IfPresent(r.size) + IfPresent(r.flags), Decimal(r.compDelay), ',');
    DepsInFull(r.robDep);
    DepsInFull(r.regDep);
    ThreeParts(Join(InfoFields(r), ','), DepField(r.robDep), DepField(r.regDep));
    DefaultDigits();
  }

  lemma ThreeParts(a: string, b: string, c: string)
    ensures Join([a, b, c], ':') == a + ":" + b + ":" + c
  {
    assert [a] + [b] == [a, b] && [a, b] + [c] == [a, b, c];
    JoinSnoc([a], b, ':');
    JoinSnoc([a, b], c, ':');
  }

  lemma DefaultDigits()
    ensures Decimal(0) == "0" && Decimal(1) == "1"
  {
    assert DigitChar(0) == '0' && DigitChar(1) == '1';
  }

  // ----- Parsing -----

  datatype ParseError = BadFormat | UnsupportedType | InvalidType

  datatype Parsed<T> = Ok(value: T) | Failed(error: ParseError)

  /** `long(s)` or `int(s)` for a field that holds no negative number. */
  function Unsigned(s: string, isLong: bool): Option<nat> {
    match ParseInteger(s, isLong)
    case None => None
    case Some(v) => if v < 0 then None else Some(v)
  }

  lemma UnsignedOfDecimal(n: nat)
    ensures forall isLong :: Unsigned(Decimal(n), isLong) == Some(n)
  {
    forall isLong
      ensures Unsigned(Decimal(n), isLong) == Some(n)
    {
      IntegerOfDecimal(n, isLong);
    }
  }

  /** The numbers of a dependency field; empty items are skipped. */
  function ParseDeps(items: seq<string>): Option<seq<nat>> {
    if items == [] then Some([])
    else
      match ParseDeps(items[..|items| - 1])
      case None => None
      case Some(before) =>
        var last := items[|items| - 1];
        if last == [] then Some(before)
        else
          match Unsigned(last, true)
          case None => None
          case Some(n) => Some(before + [n])
  }

  function ParseInfo(fields: seq<string>, robDep: seq<nat>, regDep: seq<nat>): Parsed<Record> {
    if |fields| < 4 || Unsigned(fields[0], true).None? || Unsigned(fields[1], true).None? || Unsigned(fields[2], true).None? then
      Failed(BadFormat)
    else
      var seqNum, pc, weight := Unsigned(fields[0], true).value, Unsigned(fields[1], true).value, Unsigned(fields[2], true).value;
      match TypeOfName(fields[3])
      case None => Failed(UnsupportedType)
      case Some(INVALID) => Failed(InvalidType)
      case Some(COMP) =>
        if |fields| < 5 || Unsigned(fields[4], true).None? then Failed(BadFormat)
        else
          Ok(Record(seqNum, Some(pc), Some(weight), COMP, None, None, None, Unsigned(fields[4], true).value, robDep, regDep))
      case Some(kind) =>
        if |fields| < 8 || Unsigned(fields[4], true).None? || Unsigned(fields[5], false).None?
           || Unsigned(fields[6], false).None? || Unsigned(fields[7], true).None? then
          Failed(BadFormat)
        else
          Ok(Record(seqNum, Some(pc), Some(weight), kind, Unsigned(fields[4], true), Unsigned(fields[5], false), Unsigned(fields[6], false),
                    Unsigned(fields[7], true).value, robDep, regDep))
  }

  function ParseLine(line: string): Parsed<Record> {
    var parts := Split(Strip(line), ':');
    if |parts| != 3 then Failed(BadFormat)
    else
      match (ParseDeps(Split(Strip(parts[1]), ',')), ParseDeps(Split(parts[2], ',')))
      case (Some(rob), Some(reg)) => ParseInfo(Split(parts[0], ','), rob, reg)
      case _ =>
        // A bad dependency is met only after the fields before it have been accepted.
        var info := ParseInfo(Split(parts[0], ','), [], []);
        if info.Failed? then info else Failed(BadFormat)
  }

  // ----- The round trip -----

  /** What the printer writes for an absent pc or weight. */
  function WithDefaults(r: Record): Record {
    r.(pc := Some(if r.pc.Some? then r.pc.value else 0), weight := Some(if r.weight.Some? then r.weight.value else 1))
  }

  /** Memory accesses carry all three memory fields, computations none. */
  predicate WellShaped(r: Record) {
    match r.kind
    case INVALID => false
    case COMP => r.pAddr.None? && r.size.None? && r.flags.None?
    case _ => r.pAddr.Some? && r.size.Some? && r.flags.Some?
  }

  predicate Plain(s: string) {
    forall c :: c in s ==> IsDigit(c) || 'A' <= c <= 'Z'
  }

  lemma InfoFieldsPlain(r: Record)
    ensures forall f :: f in InfoFields(r) ==> Plain(f) && f != []
  {
  }

  lemma DepPartsPlain(deps: seq<nat>)
    ensures forall f :: f in [[]] + Decimals(deps) ==> Plain(f)
  {
    forall f | f in Decimals(deps)
      ensures Plain(f)
    {
      var i :| 0 <= i < |deps| && Decimals(deps)[i] == f;
    }
  }

  /** A comma-joined list of plain fields holds no colon, white space or newline. */
  lemma JoinedPlain(fields: seq<string>, c: char)
    requires fields != [] && (forall f :: f in fields ==> Plain(f)) && c in Join(fields, ',')
    ensures c == ',' || IsDigit(c) || 'A' <= c <= 'Z'
  {
    JoinChars(fields, ',', c);
  }

  lemma {:induction false} ParseDecimals(deps: seq<nat>)
    ensures ParseDeps([[]] + Decimals(deps)) == Some(deps)
  {
    var items := [[]] + Decimals(deps);
    if deps == [] {
      assert items[..0] == [];
    } else {
      var n := |deps| - 1;
      ParseDecimals(deps[..n]);
      assert items[..|items| - 1] == [[]] + Decimals(deps[..n]);
      UnsignedOfDecimal(deps[n]);
      assert deps == deps[..n] + [deps[n]];
    }
  }

  lemma DepFieldParses(deps: seq<nat>)
    ensures Split(DepField(deps), ',') == [[]] + Decimals(deps)
    ensures ParseDeps(Split(DepField(deps), ',')) == Some(deps)
    ensures forall c :: c in DepField(deps) ==> c == ',' || IsDigit(c) || 'A' <= c <= 'Z'
  {
    DepPartsPlain(deps);
    SplitJoin([[]] + Decimals(deps), ',');
    ParseDecimals(deps);
    forall c | c in DepField(deps)
      ensures c == ',' || IsDigit(c) || 'A' <= c <= 'Z'
    {
      JoinedPlain([[]] + Decimals(deps), c);
    }
  }

  lemma InfoSplits(r: Record)
    ensures Split(Join(InfoFields(r), ','), ',') == InfoFields(r)
    ensures forall c :: c in Join(InfoFields(r), ',') ==> c == ',' || IsDigit(c) || 'A' <= c <= 'Z'
    ensures Join(InfoFields(r), ',') != [] && IsDigit(Join(InfoFields(r), ',')[0])
  {
    InfoFieldsPlain(r);
    SplitJoin(InfoFields(r), ',');
    forall c | c in Join(InfoFields(r), ',')
      ensures c == ',' || IsDigit(c) || 'A' <= c <= 'Z'
    {
      JoinedPlain(InfoFields(r), c);
    }
    assert InfoFields(r)[0] == Decimal(r.seqNum);
  }

  lemma StripPlain(s: string)
    requires forall c :: c in s ==> !IsSpace(c)
    ensures Strip(s) == s && (s != [] ==> Strip(s + "\n") == s)
  {
    if s != [] {
      assert s[0] in s && s[|s| - 1] in s;
      StripNewline(s);
    }
  }

  lemma PrintedSplits(r: Record)
    ensures Strip(PrintRecord(r) + "\n") == PrintRecord(r)
    ensures Split(PrintRecord(r), ':') == [Join(InfoFields(r), ','), DepField(r.robDep), DepField(r.regDep)]
    ensures forall c :: c in PrintRecord(r) ==> !IsSpace(c)
    ensures PrintRecord(r) != []
  {
    var parts := [Join(InfoFields(r), ','), DepField(r.robDep), DepField(r.regDep)];
    InfoSplits(r);
    DepFieldParses(r.robDep);
    DepFieldParses(r.regDep);
    SplitJoin(parts, ':');
    forall c | c in PrintRecord(r)
      ensures !IsSpace(c)
    {
      JoinChars(parts, ':', c);
    }
    StripPlain(PrintRecord(r));
  }

  function Present(n: Option<nat>): nat {
    if n.Some? then 1 else 0
  }

  lemma HeadFieldsParse(r: Record)
    ensures var fields := InfoFields(r);
            && |fields| == 5 + Present(r.pAddr) + Present(r.size) + Present(r.flags)
            && Unsigned(fields[0], true) == Some(r.seqNum)
            && Unsigned(fields[1], true) == WithDefaults(r).pc && Unsigned(fields[2], true) == WithDefaults(r).weight
            && TypeOfName(fields[3]) == Some(r.kind)
  {
    UnsignedOfDecimal(r.seqNum);
    UnsignedOfDecimal(WithDefaults(r).pc.value);
    UnsignedOfDecimal(WithDefaults(r).weight.value);
    assert TypeOfName(TypeName(r.kind)) == Some(r.kind);
  }

  lemma TailFieldsParse(r: Record)
    requires WellShaped(r)
    ensures var fields := InfoFields(r);
            if r.kind == COMP then |fields| == 5 && Unsigned(fields[4], true) == Some(r.compDelay)
            else && |fields| == 8 && Unsigned(fields[4], true) == r.pAddr && Unsigned(fields[5], false) == r.size
                 && Unsigned(fields[6], false) == r.flags && Unsigned(fields[7], true) == Some(r.compDelay)
  {
    UnsignedOfDecimal(r.compDelay);
    if r.kind != COMP {
      UnsignedOfDecimal(r.pAddr.value);
      UnsignedOfDecimal(r.size.value);
      UnsignedOfDecimal(r.flags.value);
    }
  }

  /** Whatever the parser accepts has the shape of its type. */
  lemma ParsedIsWellShaped(fields: seq<string>, robDep: seq<nat>, regDep: seq<nat>)
    ensures var parsed := ParseInfo(fields, robDep, regDep); parsed.Ok? ==> WellShaped(parsed.value)
  {
  }

  lemma FieldsGiveRecord(fields: seq<string>, r: Record)
    requires WellShaped(r) && |fields| == if r.kind == COMP then 5 else 8
    requires Unsigned(fields[0], true) == Some(r.seqNum)
    requires Unsigned(fields[1], true) == WithDefaults(r).pc && Unsigned(fields[2], true) == WithDefaults(r).weight
    requires TypeOfName(fields[3]) == Some(r.kind)
    requires r.kind == COMP ==> Unsigned(fields[4], true) == Some(r.compDelay)
    requires r.kind != COMP ==>
               && Unsigned(fields[4], true) == r.pAddr && Unsigned(fields[5], false) == r.size
               && Unsigned(fields[6], false) == r.flags && Unsigned(fields[7], true) == Some(r.compDelay)
    ensures ParseInfo(fields, r.robDep, r.regDep) == Ok(WithDefaults(r))
  {
  }

  /** Parsing the fields the printer wrote, for every record. */
  lemma InfoRoundTrip(r: Record)
    ensures ParseInfo(InfoFields(r), r.robDep, r.regDep) == Ok(WithDefaults(r)) <==> WellShaped(r)
  {
    if WellShaped(r) {
      HeadFieldsParse(r);
      TailFieldsParse(r);
      FieldsGiveRecord(InfoFields(r), r);
    } else {
      ParsedIsWellShaped(InfoFields(r), r.robDep, r.regDep);
      assert !WellShaped(WithDefaults(r));
    }
  }

  /** A record comes back with its defaults filled in exactly when it is well shaped. */
  lemma RoundTrip(r: Record)
    ensures ParseLine(PrintRecord(r) + "\n") == Ok(WithDefaults(r)) <==> WellShaped(r)
  {
    PrintedSplits(r);
    InfoSplits(r);
    DepFieldParses(r.robDep);
    DepFieldParses(r.regDep);
    StripPlain(DepField(r.robDep));
    InfoRoundTrip(r);
  }

  // ----- Whole traces -----

  function TraceText(records: seq<Record>): string {
    if records == [] then []
    else TraceText(records[..|records| - 1]) + PrintRecord(records[|records| - 1]) + "\n"
  }

  /** The lines a file is iterated by: each ends with its newline, except perhaps the last. */
  function Lines(text: string): seq<string> {
    var parts := Split(text, '\n');
    var last := parts[|parts| - 1];
    Terminated(parts[..|parts| - 1]) + (if last == [] then [] else [last])
  }

  function Terminated(parts: seq<string>): (lines: seq<string>)
    ensures |lines| == |parts| && forall i :: 0 <= i < |parts| ==> lines[i] == parts[i] + "\n"
  {
    if parts == [] then [] else Terminated(parts[..|parts| - 1]) + [parts[|parts| - 1] + "\n"]
  }

  function ParseTrace(lines: seq<string>): Parsed<seq<Record>> {
    if lines == [] then Ok([])
    else
      var before := ParseTrace(lines[..|lines| - 1]);
      if before.Failed? then before
      else
        match ParseLine(lines[|lines| - 1])
        case Failed(error) => Failed(error)
        case Ok(r) => Ok(before.value + [r])
  }

  function AllWithDefaults(records: seq<Record>): seq<Record> {
    if records == [] then []
    else AllWithDefaults(records[..|records| - 1]) + [WithDefaults(records[|records| - 1])]
  }

  function PrintedLines(records: seq<Record>): (parts: seq<string>)
    ensures |parts| == |records| && forall i :: 0 <= i < |records| ==> parts[i] == PrintRecord(records[i])
  {
    if records == [] then []
    else PrintedLines(records[..|records| - 1]) + [PrintRecord(records[|records| - 1])]
  }

  lemma {:induction false} TraceTextJoins(records: seq<Record>)
    ensures TraceText(records) == Join(PrintedLines(records) + [[]], '\n')
  {
    if records != [] {
      var front, last := records[..|records| - 1], PrintRecord(records[|records| - 1]);
      TraceTextJoins(front);
      JoinReplaceLast(PrintedLines(front), last, '\n');
      JoinSnoc(PrintedLines(front) + [last], [], '\n');
      assert PrintedLines(records) == PrintedLines(front) + [last];
    }
  }

  lemma {:induction false} JoinReplaceLast(parts: seq<string>, last: string, sep: char)
    ensures Join(parts + [last], sep) == Join(parts + [[]], sep) + last
  {
    if parts == [] {
      assert parts + [last] == [last] && parts + [[]] == [[]];
    } else {
      JoinSnoc(parts, last, sep);
      JoinSnoc(parts, [], sep);
    }
  }

  lemma TraceLines(records: seq<Record>)
    ensures Lines(TraceText(records)) == Terminated(PrintedLines(records))
  {
    var parts := PrintedLines(records) + [[]];
    TraceTextJoins(records);
    forall p | p in parts
      ensures '\n' !in p
    {
      if p in PrintedLines(records) {
        var i :| 0 <= i < |records| && PrintedLines(records)[i] == p;
        PrintedSplits(records[i]);
        assert IsSpace('\n');
      }
    }
    SplitJoin(parts, '\n');
    assert parts[..|parts| - 1] == PrintedLines(records);
  }

  lemma {:induction false} ParsePrintedLines(records: seq<Record>)
    ensures ParseTrace(Terminated(PrintedLines(records))) == Ok(AllWithDefaults(records))
            <==> forall r :: r in records ==> WellShaped(r)
  {
    if records != [] {
      var n := |records| - 1;
      var lines := Terminated(PrintedLines(records));
      assert records == records[..n] + [records[n]];
      assert PrintedLines(records)[..n] == PrintedLines(records[..n]);
      assert lines[..n] == Terminated(PrintedLines(records[..n]));
      ParsePrintedLines(records[..n]);
      RoundTrip(records[n]);
      assert AllWithDefaults(records)[..n] == AllWithDefaults(records[..n]) by {
        DefaultsLength(records[..n]);
      }
      ParsedSnoc(lines, AllWithDefaults(records[..n]), WithDefaults(records[n]));
    }
  }

  lemma {:induction false} DefaultsLength(records: seq<Record>)
    ensures |AllWithDefaults(records)| == |records|
  {
    if records != [] {
      DefaultsLength(records[..|records| - 1]);
    }
  }

  lemma ParsedSnoc(lines: seq<string>, before: seq<Record>, last: Record)
    requires lines != []
    ensures ParseTrace(lines) == Ok(before + [last]) <==>
            ParseTrace(lines[..|lines| - 1]) == Ok(before) && ParseLine(lines[|lines| - 1]) == Ok(last)
  {
    var front := ParseTrace(lines[..|lines| - 1]);
    if front.Ok? && ParseLine(lines[|lines| - 1]).Ok? {
      var r := ParseLine(lines[|lines| - 1]).value;
      assert (front.value + [r])[..|front.value|] == front.value && (before + [last])[..|before|] == before;
      if front.value + [r] == before + [last] {
        assert |front.value| == |before|;
        assert (front.value + [r])[|before|] == r && (before + [last])[|before|] == last;
      }
    }
  }

  /** A printed trace parses back to its records, defaults filled in, exactly when all are well shaped. */
  lemma TraceRoundTrip(records: seq<Record>)
    ensures ParseTrace(Lines(TraceText(records))) == Ok(AllWithDefaults(records))
            <==> forall r :: r in records ==> WellShaped(r)
  {
    TraceLines(records);
    ParsePrintedLines(records);
  }

  // ----- The scripts' loops -----

  method PrintDeps(deps: seq<nat>) returns (out: string)
    ensures out == DepField(deps)
  {
    out := [];
    for i := 0 to |deps|
      invariant out == DepField(deps[..i])
    {
      assert deps[..i + 1][..i] == deps[..i];
      assert [[]] + Decimals(deps[..i + 1]) == ([[]] + Decimals(deps[..i])) + [Decimal(deps[i])];
      JoinSnoc([[]] + Decimals(deps[..i]), Decimal(deps[i]), ',');
      out := out + "," + Decimal(deps[i]);
    }
    assert deps[..|deps|] == deps;
  }

  method PrintInfo(r: Record) returns (out: string)
    ensures out == Join(InfoFields(r), ',')
  {
    DefaultDigits();
    out := Decimal(r.seqNum);
    ghost var fields := [Decimal(r.seqNum)];
    out := Append(out, fields, if r.pc.Some? then Decimal(r.pc.value) else "0");
    out := Append(out, fields + [Number(r.pc, 0)], if r.weight.Some? then Decimal(r.weight.value) else "1");
    fields := [Decimal(r.seqNum), Number(r.pc, 0), Number(r.weight, 1)];
    out := Append(out, fields, TypeName(r.kind));
    fields := fields + [TypeName(r.kind)];
    out := AppendIfPresent(out, fields, r.pAddr);
    out := AppendIfPresent(out, fields + IfPresent(r.pAddr), r.size);
    fields := fields + IfPresent(r.pAddr) + IfPresent(r.size);
    out := AppendIfPresent(out, fields, r.flags);
    fields := fields + IfPresent(r.flags);
    out := Append(out, fields, Decimal(r.compDelay));
    assert fields + [Decimal(r.compDelay)] == InfoFields(r);
  }

  /** Writes a comma and a field. */
  method Append(out: string, ghost fields: seq<string>, field: string) returns (more: string)
    requires fields != [] && out == Join(fields, ',')
    ensures more == Join(fields + [field], ',')
  {
    JoinSnoc(fields, field, ',');
    more := out + "," + field;
  }

  method AppendIfPresent(out: string, ghost fields: seq<string>, n: Option<nat>) returns (more: string)
    requires fields != [] && out == Join(fields, ',')
    ensures more == Join(fields + IfPresent(n), ',')
  {
    if n.Some? {
      more := Append(out, fields, Decimal(n.value));
    } else {
      assert fields + [] == fields;
      more := out;
    }
  }

  method PrintLine(r: Record) returns (out: string)
    ensures out == PrintRecord(r) + "\n"
  {
    var info := PrintInfo(r);
    var rob := PrintDeps(r.robDep);
    var reg := PrintDeps(r.regDep);
    assert [info] + [rob] == [info, rob] && [info, rob] + [reg] == [info, rob, reg];
    JoinSnoc([info], rob, ':');
    JoinSnoc([info, rob], reg, ':');
    out := info + ":" + rob + ":" + reg + "\n";
  }

  /** The decoding loop. */
  method DecodeTrace(records: seq<Record>) returns (text: string)
    ensures text == TraceText(records)
  {
    text := [];
    for i := 0 to |records|
      invariant text == TraceText(records[..i])
    {
      assert records[..i + 1][..i] == records[..i];
      var line := PrintLine(records[i]);
      assert text + PrintRecord(records[i]) + "\n" == text + (PrintRecord(records[i]) + "\n");
      text := text + line;
    }
    assert records[..|records|] == records;
  }

  method ParseDepItems(items: seq<string>) returns (deps: Option<seq<nat>>)
    ensures deps == ParseDeps(items)
  {
    var found: seq<nat> := [];
    for i := 0 to |items|
      invariant ParseDeps(items[..i]) == Some(found)
    {
      assert items[..i + 1][..i] == items[..i];
      if items[i] != [] {
        var n := Unsigned(items[i], true);
        if n.None? {
          ParseDepsFails(items, i + 1);
          return None;
        }
        found := found + [n.value];
      }
    }
    assert items[..|items|] == items;
    return Some(found);
  }

  lemma {:induction false} ParseDepsFails(items: seq<string>, n: nat)
    requires n <= |items| && ParseDeps(items[..n]) == None
    ensures ParseDeps(items) == None
    decreases |items|
  {
    if n < |items| {
      var front := items[..|items| - 1];
      assert front[..n] == items[..n];
      ParseDepsFails(front, n);
    } else {
      assert items[..n] == items;
    }
  }

  /** One line of the encoding loop: the fields are filled in first, then the dependencies. */
  method ParseRecord(line: string) returns (parsed: Parsed<Record>)
    ensures parsed == ParseLine(line)
  {
    var parts := Split(Strip(line), ':');
    if |parts| != 3 {
      return Failed(BadFormat);
    }
    var info := ParseFields(Split(parts[0], ','));
    if info.Failed? {
      return info;
    }
    var rob := ParseDepItems(Split(Strip(parts[1]), ','));
    if rob.None? {
      return Failed(BadFormat);
    }
    var reg := ParseDepItems(Split(parts[2], ','));
    if reg.None? {
      return Failed(BadFormat);
    }
    return Ok(info.value.(robDep := rob.value, regDep := reg.value));
  }

  /** The fields before the dependencies, filled in one after the other. */
  method ParseFields(fields: seq<string>) returns (parsed: Parsed<Record>)
    ensures parsed == ParseInfo(fields, [], [])
  {
    if |fields| < 4 {
      return Failed(BadFormat);
    }
    var seqNum, pc, weight := Unsigned(fields[0], true), Unsigned(fields[1], true), Unsigned(fields[2], true);
    if seqNum.None? || pc.None? || weight.None? {
      return Failed(BadFormat);
    }
    var kind := TypeOfName(fields[3]);
    if kind.None? {
      return Failed(UnsupportedType);
    }
    if kind.value == INVALID {
      return Failed(InvalidType);
    }
    var record := Record(seqNum.value, pc, weight, kind.value, None, None, None, 0, [], []);
    if kind.value == LOAD || kind.value == STORE {
      if |fields| < 8 {
        return Failed(BadFormat);
      }
      record := record.(
        pAddr := Unsigned(fields[4], true), size := Unsigned(fields[5], false), flags := Unsigned(fields[6], false));
      var delay := Unsigned(fields[7], true);
      if record.pAddr.None? || record.size.None? || record.flags.None? || delay.None? {
        return Failed(BadFormat);
      }
      return Ok(record.(compDelay := delay.value));
    }
    if |fields| < 5 {
      return Failed(BadFormat);
    }
    var delay := Unsigned(fields[4], true);
    return if delay.None? then Failed(BadFormat) else Ok(record.(compDelay := delay.value));
  }

  /** The encoding loop, which exits at the first line it cannot use. */
  method EncodeTrace(text: string) returns (parsed: Parsed<seq<Record>>)
    ensures parsed == ParseTrace(Lines(text))
  {
    var lines := Lines(text);
    var records: seq<Record> := [];
    for i := 0 to |lines|
      invariant ParseTrace(lines[..i]) == Ok(records)
    {
      ParseTraceStep(lines, i);
      var r := ParseRecord(lines[i]);
      if r.Failed? {
        ParseTraceFails(lines, i + 1);
        return Failed(r.error);
      }
      records := records + [r.value];
    }
    assert lines[..|lines|] == lines;
    return Ok(records);
  }

  lemma ParseTraceStep(lines: seq<string>, i: nat)
    requires i < |lines|
    ensures ParseTrace(lines[..i + 1]) ==
            if ParseTrace(lines[..i]).Failed? then ParseTrace(lines[..i])
            else
              match ParseLine(lines[i])
              case Failed(error) => Failed(error)
              case Ok(r) => Ok(ParseTrace(lines[..i]).value + [r])
  {
    assert lines[..i + 1][..i] == lines[..i];
  }

  lemma {:induction false} ParseTraceFails(lines: seq<string>, n: nat)
    requires n <= |lines| && ParseTrace(lines[..n]).Failed?
    ensures ParseTrace(lines) == ParseTrace(lines[..n])
    decreases |lines|
  {
    if n < |lines| {
      var front := lines[..|lines| - 1];
      assert front[..n] == lines[..n];
      ParseTraceFails(front, n);
    } else {
      assert lines[..n] == lines;
    }
  }
}
