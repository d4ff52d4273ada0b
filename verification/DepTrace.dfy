/** The instruction dependency trace as text: the line `decode_inst_dep_trace.py` prints
    for a record, and the record `encode_inst_dep_trace.py` makes of a line. */
module DepTrace {
  import opened TraceText
  import opened Wrappers

  const INVALID: nat := 0
  const LOAD: nat := 1
  const STORE: nat := 2
  const COMP: nat := 3

  datatype Record = Record(seqNum: nat, pc: Option<nat>, weight: Option<nat>, kind: nat,
                           addr: Option<nat>, size: Option<nat>, flags: Option<nat>, delay: nat,
                           robDeps: seq<nat>, regDeps: seq<nat>)

  function Name(kind: nat): (s: string)
    requires kind <= COMP
  {
    if kind == INVALID then "INVALID" else if kind == LOAD then "LOAD" else if kind == STORE then "STORE" else "COMP"
  }

  function Kind(name: string): (r: Option<nat>) {
    if name == "INVALID" then Some(INVALID)
    else if name == "LOAD" then Some(LOAD)
    else if name == "STORE" then Some(STORE)
    else if name == "COMP" then Some(COMP)
    else None
  }

  // ------------------------------------------------------------------------ printing

  function Or(o: Option<nat>, default: nat): (n: nat) {
    if o.Some? then o.value else default
  }

  function Maybe(o: Option<nat>): (r: seq<string>) {
    if o.Some? then [Decimal(o.value)] else []
  }

  /** The comma-separated fields before the first colon. */
  function Info(r: Record): (fields: seq<string>)
    requires r.kind <= COMP
    ensures |fields| >= 5
  {
    [Decimal(r.seqNum), Decimal(Or(r.pc, 0)), Decimal(Or(r.weight, 1)), Name(r.kind)]
    + Maybe(r.addr) + Maybe(r.size) + Maybe(r.flags) + [Decimal(r.delay)]
  }

  /** A dependency list: a comma before every number. */
  function Deps(s: seq<nat>): (r: string) {
    Join([""] + Each(Decimal, s), ',')
  }

  function Body(r: Record): (s: string)
    requires r.kind <= COMP
  {
    Join(Info(r), ',') + ":" + (Deps(r.robDeps) + ":" + Deps(r.regDeps))
  }

  function Print(r: Record): (line: string)
    requires r.kind <= COMP
  {
    Body(r) + "\n"
  }

  /** The same line written out, piece by piece. */
  ghost function LineText(r: Record): (line: string)
    requires r.kind <= 3
  {
    HeadText(r) + ":" + ListText(r.robDeps) + ":" + ListText(r.regDeps) + "\n"
  }

  ghost function HeadText(r: Record): (s: string)
    requires r.kind <= 3
  {
    var pc := if r.pc.Some? then Decimal(r.pc.value) else "0";
    var weight := if r.weight.Some? then Decimal(r.weight.value) else "1";
    var name := if r.kind == 0 then "INVALID"
                else if r.kind == 1 then "LOAD" else if r.kind == 2 then "STORE" else "COMP";
    Decimal(r.seqNum) + "," + pc + "," + weight + "," + name
    + FieldText(r.addr) + FieldText(r.size) + FieldText(r.flags) + "," + Decimal(r.delay)
  }

  ghost function FieldText(o: Option<nat>): (s: string) {
    if o.Some? then "," + Decimal(o.value) else ""
  }

  ghost function ListText(deps: seq<nat>): (s: string) {
    if deps == [] then "" else ListText(deps[..|deps| - 1]) + "," + Decimal(deps[|deps| - 1])
  }

  lemma {:induction false} DepsText(deps: seq<nat>)
    ensures Deps(deps) == ListText(deps)
    decreases |deps|
  {
    if deps != [] {
      var k := |deps| - 1;
      DepsText(deps[..k]);
      DepsNext(deps, k);
      assert deps[..k + 1] == deps;
    }
  }

  lemma MaybeText(fields: seq<string>, o: Option<nat>)
    requires |fields| > 0
    ensures Join(fields + Maybe(o), ',') == Join(fields, ',') + FieldText(o)
  {
    if o.Some? {
      JoinNext(fields, ',', Decimal(o.value));
      TextAssociates(Join(fields, ','), ",", Decimal(o.value));
    } else {
      assert fields + Maybe(o) == fields;
    }
  }

  lemma InfoText(r: Record)
    requires r.kind <= COMP
    ensures Join(Info(r), ',') == HeadText(r)
  {
    var f := [Decimal(r.seqNum), Decimal(Or(r.pc, 0)), Decimal(Or(r.weight, 1)), Name(r.kind)];
    FourFields(f);
    MaybeText(f, r.addr);
    MaybeText(f + Maybe(r.addr), r.size);
    MaybeText(f + Maybe(r.addr) + Maybe(r.size), r.flags);
    JoinNext(f + Maybe(r.addr) + Maybe(r.size) + Maybe(r.flags), ',', Decimal(r.delay));
  }

  lemma PrintIs(r: Record)
    requires r.kind <= COMP
    ensures Print(r) == LineText(r)
  {
    InfoText(r);
    DepsText(r.robDeps);
    DepsText(r.regDeps);
    ThreeTexts(HeadText(r), ListText(r.robDeps), ListText(r.regDeps));
  }

  lemma ThreeTexts(info: string, rob: string, reg: string)
    ensures info + ":" + (rob + ":" + reg) + "\n" == info + ":" + rob + ":" + reg + "\n"
  {}

  // ------------------------------------------------------------------------- parsing

  /** The non-empty items as numbers. */
  function Numbers(items: seq<string>): (r: Option<seq<nat>>) {
    Gather(Number, items)
  }

  /** The record without its dependencies; fields past the expected ones are ignored. */
  function ParseInfo(f: seq<string>): (r: Result<Record>) {
    if |f| < 5 || Number(f[0]).None? || Number(f[1]).None? || Number(f[2]).None? then Err
    else if Kind(f[3]).None? || Kind(f[3]).value == INVALID then Err
    else
      var kind := Kind(f[3]).value;
      var r := Record(Number(f[0]).value, Some(Number(f[1]).value), Some(Number(f[2]).value), kind,
                      None, None, None, 0, [], []);
      if kind == LOAD || kind == STORE then
        if |f| < 8 || Number(f[4]).None? || Number(f[5]).None? || Number(f[6]).None? || Number(f[7]).None? then Err
        else Ok(r.(addr := Number(f[4]), size := Number(f[5]), flags := Number(f[6]), delay := Number(f[7]).value))
      else if Number(f[4]).None? then Err
      else Ok(r.(delay := Number(f[4]).value))
  }

  function Parse(line: string): (r: Result<Record>) {
    var parts := Split(Strip(line), ':');
    if |parts| != 3 then Err
    else
      var info := ParseInfo(Split(parts[0], ','));
      var rob, reg := Numbers(Split(Strip(parts[1]), ',')), Numbers(Split(parts[2], ','));
      if info.Err? || rob.None? || reg.None? then Err
      else Ok(info.value.(robDeps := rob.value, regDeps := reg.value))
  }

  /** The fields spell out the record, without its dependencies. */
  ghost predicate Spells(f: seq<string>, r: Record) {
    && |f| >= 5 && Number(f[0]) == Some(r.seqNum) && r.pc.Some? && Number(f[1]) == r.pc
    && r.weight.Some? && Number(f[2]) == r.weight
    && f[3] == (if r.kind == 1 then "LOAD" else if r.kind == 2 then "STORE" else "COMP")
    && if r.kind == 1 || r.kind == 2 then
         && |f| >= 8 && r.addr.Some? && Number(f[4]) == r.addr && r.size.Some? && Number(f[5]) == r.size
         && r.flags.Some? && Number(f[6]) == r.flags && Number(f[7]) == Some(r.delay)
       else r.kind == 3 && r.addr == r.size == r.flags == None && Number(f[4]) == Some(r.delay)
  }

  lemma InfoIff(f: seq<string>, r: Record)
    ensures ParseInfo(f) == Ok(r) <==> Spells(f, r) && r.robDeps == r.regDeps == []
  {}

  /** Exactly the lines of three parts are accepted whose first part spells a record and
      whose others list numbers; and that is the record. */
  lemma ParseIff(line: string, r: Record)
    ensures Parse(line) == Ok(r) <==>
            var parts := Split(Strip(line), ':');
            && |parts| == 3 && Spells(Split(parts[0], ','), r)
            && Numbers(Split(Strip(parts[1]), ',')) == Some(r.robDeps)
            && Numbers(Split(parts[2], ',')) == Some(r.regDeps)
  {
    var parts := Split(Strip(line), ':');
    if |parts| == 3 {
      InfoIff(Split(parts[0], ','), r.(robDeps := [], regDeps := []));
    }
  }

  // ------------------------------------------------------------------- the loops

  /** The printing loop over one dependency list. */
  method PrintDeps(deps: seq<nat>) returns (out: string)
    ensures out == Deps(deps)
  {
    out := "";
    var k := 0;
    while k < |deps|
      invariant k <= |deps| && out == Deps(deps[..k])
    {
      DepsNext(deps, k);
      out := out + "," + Decimal(deps[k]);
      k := k + 1;
    }
    assert deps[..k] == deps;
  }

  lemma {:induction false} JoinNext(fields: seq<string>, c: char, x: string)
    requires |fields| > 0
    ensures Join(fields + [x], c) == Join(fields, c) + [c] + x
    decreases |fields|
  {
    if |fields| == 1 {
      assert (fields + [x])[1..] == [x];
    } else {
      assert (fields + [x])[1..] == fields[1..] + [x];
      JoinNext(fields[1..], c, x);
    }
  }

  lemma DepsNext(deps: seq<nat>, k: nat)
    requires k < |deps|
    ensures Deps(deps[..k + 1]) == Deps(deps[..k]) + "," + Decimal(deps[k])
  {
    assert [""] + Each(Decimal, deps[..k + 1]) == [""] + Each(Decimal, deps[..k]) + [Decimal(deps[k])];
    JoinNext([""] + Each(Decimal, deps[..k]), ',', Decimal(deps[k]));
  }

  /** A field that is there is written after a comma. */
  method PrintField(out: string, o: Option<nat>, ghost fields: seq<string>) returns (r: string)
    requires |fields| > 0 && out == Join(fields, ',')
    ensures r == Join(fields + Maybe(o), ',')
  {
    if o.Some? {
      JoinNext(fields, ',', Decimal(o.value));
      r := out + "," + Decimal(o.value);
    } else {
      assert fields + Maybe(o) == fields;
      r := out;
    }
  }

  method PrintHead(r: Record) returns (text: string)
    requires r.kind <= COMP
    ensures text == Join([Decimal(r.seqNum), Decimal(Or(r.pc, 0)), Decimal(Or(r.weight, 1)), Name(r.kind)], ',')
  {
    FourFields([Decimal(r.seqNum), Decimal(Or(r.pc, 0)), Decimal(Or(r.weight, 1)), Name(r.kind)]);
    text := Decimal(r.seqNum);
    var pc := if r.pc.Some? then Decimal(r.pc.value) else "0";
    text := text + "," + pc;
    var weight := if r.weight.Some? then Decimal(r.weight.value) else "1";
    text := text + "," + weight;
    text := text + "," + Name(r.kind);
  }

  method PrintInfo(r: Record) returns (text: string)
    requires r.kind <= COMP
    ensures text == Join(Info(r), ',')
  {
    ghost var fields := [Decimal(r.seqNum), Decimal(Or(r.pc, 0)), Decimal(Or(r.weight, 1)), Name(r.kind)];
    text := PrintHead(r);
    text := PrintField(text, r.addr, fields);
    text := PrintField(text, r.size, fields + Maybe(r.addr));
    text := PrintField(text, r.flags, fields + Maybe(r.addr) + Maybe(r.size));
    text := PrintField(text, Some(r.delay), fields + Maybe(r.addr) + Maybe(r.size) + Maybe(r.flags));
  }

  /** The printing of one record, piece by piece; it fails for an unknown type. */
  method PrintRecord(r: Record) returns (out: Result<string>)
    ensures out == if r.kind <= COMP then Ok(Print(r)) else Err
    ensures r.kind <= 3 ==> out == Ok(LineText(r))
  {
    if r.kind <= COMP { PrintIs(r); }
    if r.kind > COMP {
      return Err;
    }
    var info := PrintInfo(r);
    var rob := PrintDeps(r.robDeps);
    var reg := PrintDeps(r.regDeps);
    var text := info + ":" + rob + ":" + reg;
    assert text == info + ":" + (rob + ":" + reg);
    return Ok(text + "\n");
  }

  lemma FourFields(f: seq<string>)
    requires |f| == 4
    ensures Join(f, ',') == f[0] + "," + f[1] + "," + f[2] + "," + f[3]
  {
    assert f[1..][1..] == f[2..] && f[2..][1..] == f[3..];
    assert Join(f[2..], ',') == f[2] + "," + f[3];
  }

  /** The parsing loop over one dependency list. */
  method ParseDeps(items: seq<string>) returns (out: Option<seq<nat>>)
    ensures out == Numbers(items)
  {
    var deps: seq<nat> := [];
    var k := 0;
    while k < |items|
      invariant k <= |items| && Gather(Number, items[..k]) == Some(deps)
    {
      assert items[..k + 1] == items[..k] + [items[k]];
      GatherNext(Number, items[..k], items[k]);
      if items[k] != "" {
        var n := Number(items[k]);
        if n.None? {
          GatherFails(Number, items, k + 1);
          return None;
        }
        deps := deps + [n.value];
      }
      k := k + 1;
    }
    assert items[..k] == items;
    return Some(deps);
  }

  /** The parsing of one line. */
  method ParseLine(line: string) returns (out: Result<Record>)
    ensures out == Parse(line)
  {
    var parts := Split(Strip(line), ':');
    if |parts| != 3 {
      return Err;
    }
    var info := ParseInfo(Split(parts[0], ','));
    if info.Err? {
      return Err;
    }
    var rob := ParseDeps(Split(Strip(parts[1]), ','));
    if rob.None? {
      return Err;
    }
    var reg := ParseDeps(Split(parts[2], ','));
    if reg.None? {
      return Err;
    }
    return Ok(info.value.(robDeps := rob.value, regDeps := reg.value));
  }

  // ------------------------------------------------------------------- round trip

  /** Free of the characters that separate fields, lists and lines. */
  predicate Plain(s: string) {
    forall i :: 0 <= i < |s| ==> s[i] != ',' && s[i] != ':' && !Space(s[i])
  }

  lemma DecimalPlain(n: nat)
    ensures Plain(Decimal(n)) && Decimal(n) != ""
  {
    var s := Decimal(n);
    assert Digits(s);
  }

  lemma NamePlain(kind: nat)
    requires kind <= COMP
    ensures Plain(Name(kind)) && Name(kind) != ""
  {}

  predicate PlainAll(fields: seq<string>) {
    forall k :: 0 <= k < |fields| ==> Plain(fields[k]) && fields[k] != ""
  }

  lemma PlainBoth(a: seq<string>, b: seq<string>)
    requires PlainAll(a) && PlainAll(b)
    ensures PlainAll(a + b)
  {}

  lemma MaybePlain(o: Option<nat>)
    ensures PlainAll(Maybe(o))
  {
    DecimalPlain(Or(o, 0));
  }

  lemma InfoPlain(r: Record)
    requires r.kind <= COMP
    ensures PlainAll(Info(r))
  {
    DecimalPlain(r.seqNum);
    DecimalPlain(Or(r.pc, 0));
    DecimalPlain(Or(r.weight, 1));
    NamePlain(r.kind);
    var head := [Decimal(r.seqNum), Decimal(Or(r.pc, 0)), Decimal(Or(r.weight, 1)), Name(r.kind)];
    MaybePlain(r.addr);
    PlainBoth(head, Maybe(r.addr));
    MaybePlain(r.size);
    PlainBoth(head + Maybe(r.addr), Maybe(r.size));
    MaybePlain(r.flags);
    PlainBoth(head + Maybe(r.addr) + Maybe(r.size), Maybe(r.flags));
    MaybePlain(Some(r.delay));
    PlainBoth(head + Maybe(r.addr) + Maybe(r.size) + Maybe(r.flags), [Decimal(r.delay)]);
  }

  /** No colon and no newline in a list of plain fields. */
  lemma JoinPlain(fields: seq<string>)
    requires |fields| > 0 && forall k :: 0 <= k < |fields| ==> Plain(fields[k])
    ensures Split(Join(fields, ','), ',') == fields
    ensures ':' !in Join(fields, ',') && '\n' !in Join(fields, ',')
  {
    SplitJoin(fields, ',');
    JoinLacks(fields, ',', ':');
    JoinLacks(fields, ',', '\n');
  }

  lemma {:induction false} JoinTight(fields: seq<string>)
    requires |fields| > 0 && (forall k :: 0 <= k < |fields| ==> Plain(fields[k]))
    requires fields == [""] || fields[|fields| - 1] != ""
    ensures Tight(Join(fields, ',')) && (Join(fields, ',') == "" <==> fields == [""])
    decreases |fields|
  {
    if |fields| > 1 {
      JoinTight(fields[1..]);
    }
  }

  lemma DepsPlain(s: seq<nat>)
    ensures Split(Deps(s), ',') == [""] + Each(Decimal, s) && Tight(Deps(s))
    ensures ':' !in Deps(s) && '\n' !in Deps(s)
  {
    var fields := [""] + Each(Decimal, s);
    JoinPlain(fields);
    JoinTight(fields);
  }

  lemma NumbersOfDecimals(s: seq<nat>)
    ensures Numbers([""] + Each(Decimal, s)) == Some(s)
  {
    forall n: nat
      ensures Decimal(n) != "" && Number(Decimal(n)) == Some(n)
    {
      NumberOfDecimal(n);
    }
    GatherEach(Number, Decimal, s);
  }

  lemma BodyPlain(r: Record)
    requires r.kind <= COMP
    ensures Split(Body(r), ':') == [Join(Info(r), ','), Deps(r.robDeps), Deps(r.regDeps)]
    ensures '\n' !in Body(r) && Body(r) != "" && Tight(Body(r))
  {
    var info, rob, reg := Join(Info(r), ','), Deps(r.robDeps), Deps(r.regDeps);
    InfoPlain(r);
    JoinPlain(Info(r));
    JoinTight(Info(r));
    DepsPlain(r.robDeps);
    DepsPlain(r.regDeps);
    SplitFirst(info, ':', rob + ":" + reg);
    SplitFirst(rob, ':', reg);
    SplitWhole(reg, ':');
    BodyTight(info, rob, reg);
  }

  lemma BodyTight(info: string, rob: string, reg: string)
    requires info != "" && Tight(info) && Tight(reg)
    ensures Tight(info + ":" + (rob + ":" + reg))
  {
    var s := info + ":" + (rob + ":" + reg);
    assert s[0] == info[0] && s[|s| - 1] == if reg == "" then ':' else reg[|reg| - 1];
  }

  function Defaulted(r: Record): (d: Record) {
    r.(pc := Some(Or(r.pc, 0)), weight := Some(Or(r.weight, 1)))
  }

  /** Loads and stores with address, size and flags; computations without. */
  predicate WellFormed(r: Record) {
    || ((r.kind == LOAD || r.kind == STORE) && r.addr.Some? && r.size.Some? && r.flags.Some?)
    || (r.kind == COMP && r.addr.None? && r.size.None? && r.flags.None?)
  }

  lemma InfoRoundTrip(r: Record)
    requires WellFormed(r)
    ensures ParseInfo(Info(r)) == Ok(Defaulted(r).(robDeps := [], regDeps := []))
  {
    NumberOfDecimal(r.seqNum);
    NumberOfDecimal(Or(r.pc, 0));
    NumberOfDecimal(Or(r.weight, 1));
    NumberOfDecimal(Or(r.addr, 0));
    NumberOfDecimal(Or(r.size, 0));
    NumberOfDecimal(Or(r.flags, 0));
    NumberOfDecimal(r.delay);
  }

  /** What the parser makes of a printed record. */
  lemma ParsePrinted(r: Record)
    requires r.kind <= COMP
    ensures Parse(Print(r)) ==
            var info := ParseInfo(Info(r));
            if info.Err? then Err else Ok(info.value.(robDeps := r.robDeps, regDeps := r.regDeps))
  {
    BodyPlain(r);
    StripLine(Body(r));
    InfoPlain(r);
    JoinPlain(Info(r));
    DepsPlain(r.robDeps);
    DepsPlain(r.regDeps);
    StripTight(Deps(r.robDeps));
    NumbersOfDecimals(r.robDeps);
    NumbersOfDecimals(r.regDeps);
  }

  /** A load or store that lacks a field is refused; a computation's address, size and
      flags never come back. */
  lemma InfoLoses(r: Record)
    requires r.kind <= COMP && !WellFormed(r)
    ensures var info := ParseInfo(Info(r));
            info.Err? || info.value.addr != r.addr || info.value.size != r.size || info.value.flags != r.flags
  {}

  /** Printing and parsing gives the record back, `pc` and `weight` defaulted, if and only
      if the record is well-formed. */
  lemma RecordRoundTrip(r: Record)
    requires r.kind <= COMP
    ensures Parse(Print(r)) == Ok(Defaulted(r)) <==> WellFormed(r)
  {
    ParsePrinted(r);
    if WellFormed(r) {
      InfoRoundTrip(r);
    } else {
      InfoLoses(r);
    }
  }

  // ------------------------------------------------------------------- whole traces

  predicate Known(records: seq<Record>) {
    forall k :: 0 <= k < |records| ==> records[k].kind <= COMP
  }

  ghost predicate Prints(r: Record, line: string) {
    r.kind <= COMP && line == Print(r)
  }

  /** The lines printed for the records, one each. */
  ghost predicate PrintsAll(records: seq<Record>, lines: seq<string>) {
    |lines| == |records| && forall k :: 0 <= k < |records| ==> Prints(records[k], lines[k])
  }

  function ParseAll(lines: seq<string>): (r: Result<seq<Record>>) {
    All(Parse, lines)
  }

  function DefaultedAll(records: seq<Record>): (r: seq<Record>)
    ensures |r| == |records| && forall k :: 0 <= k < |r| ==> r[k] == Defaulted(records[k])
  {
    seq(|records|, k requires 0 <= k < |records| => Defaulted(records[k]))
  }

  lemma PrintIsLine(r: Record)
    requires r.kind <= COMP
    ensures OneLine(Print(r))
  {
    BodyPlain(r);
    assert Print(r)[..|Print(r)| - 1] == Body(r);
  }

  /** A whole trace survives the way through its text file if and only if all of its
      records do. */
  lemma TraceRoundTrip(records: seq<Record>, lines: seq<string>)
    requires PrintsAll(records, lines)
    ensures ParseAll(Lines(Concat(lines))) == Ok(DefaultedAll(records)) <==>
            forall k :: 0 <= k < |records| ==> WellFormed(records[k])
  {
    var s := DefaultedAll(records);
    forall k | 0 <= k < |records|
      ensures OneLine(lines[k]) && (Parse(lines[k]) == Ok(s[k]) <==> WellFormed(records[k]))
    {
      assert Prints(records[k], lines[k]);
      PrintIsLine(records[k]);
      RecordRoundTrip(records[k]);
    }
    LinesOfConcat(lines);
    AllIff(Parse, lines, s);
  }

  /** The decoder's loop: the lines of all records one after another, unless one is of
      unknown type. */
  method DecodeTrace(records: seq<Record>) returns (ok: bool, text: string, ghost lines: seq<string>)
    ensures ok <==> Known(records)
    ensures ok ==> PrintsAll(records, lines) && text == Concat(lines)
  {
    ok, text, lines := true, "", [];
    var k := 0;
    while k < |records|
      invariant k <= |records| && ok && PrintsAll(records[..k], lines) && text == Concat(lines)
    {
      var known, line := LineOf(records[k]);
      if !known {
        return false, text, lines;
      }
      PrintsNext(records, k, lines, line);
      ConcatNext(lines, line);
      text, lines := text + line, lines + [line];
      k := k + 1;
    }
    assert records[..k] == records;
    AllKnown(records, lines);
  }

  method LineOf(r: Record) returns (known: bool, line: string)
    ensures known <==> r.kind <= COMP
    ensures known ==> Prints(r, line)
  {
    var out := PrintRecord(r);
    if out.Ok? {
      return true, out.value;
    }
    return false, "";
  }

  lemma PrintsNext(records: seq<Record>, k: nat, lines: seq<string>, line: string)
    requires k < |records| && PrintsAll(records[..k], lines) && Prints(records[k], line)
    ensures PrintsAll(records[..k + 1], lines + [line])
  {
    forall j | 0 <= j < k + 1
      ensures Prints(records[..k + 1][j], (lines + [line])[j])
    {
      assert j < k ==> Prints(records[..k][j], lines[j]);
    }
  }

  lemma AllKnown(records: seq<Record>, lines: seq<string>)
    requires PrintsAll(records, lines)
    ensures Known(records)
  {
    forall k | 0 <= k < |records|
      ensures records[k].kind <= COMP
    {
      assert Prints(records[k], lines[k]);
    }
  }

  /** The encoder's loop over the lines of a file. */
  method EncodeTrace(lines: seq<string>) returns (out: Result<seq<Record>>)
    ensures out == ParseAll(lines)
  {
    var records, k := [], 0;
    while k < |lines|
      invariant k <= |lines| && All(Parse, lines[..k]) == Ok(records)
    {
      AllNext(Parse, lines, k);
      var r := ParseLine(lines[k]);
      if r.Err? {
        AllFails(Parse, lines, k + 1);
        return Err;
      }
      records := records + [r.value];
      k := k + 1;
    }
    assert lines[..k] == lines;
    return Ok(records);
  }
}
