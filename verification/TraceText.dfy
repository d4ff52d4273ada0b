/** Text helpers of the instruction dependency trace scripts: decimal numbers, and what
    Python's `split`, `strip` and line iteration do. */
module TraceText {
  import opened Wrappers

  predicate Digits(s: string) {
    forall i :: 0 <= i < |s| ==> '0' <= s[i] <= '9'
  }

  function Digit(d: nat): (c: char)
    requires d < 10
    ensures '0' <= c <= '9' && c as int == '0' as int + d
  {
    '0' + d as char
  }

  function Decimal(n: nat): (s: string)
    ensures |s| > 0 && Digits(s)
  {
    if n < 10 then [Digit(n)] else Decimal(n / 10) + [Digit(n % 10)]
  }

  function Value(s: string): (n: nat)
    requires Digits(s)
  {
    if s == [] then 0 else 10 * Value(s[..|s| - 1]) + (s[|s| - 1] as int - '0' as int)
  }

  lemma {:induction false} ValueOfDecimal(n: nat)
    ensures Value(Decimal(n)) == n
    decreases n
  {
    if n >= 10 {
      ValueOfDecimal(n / 10);
      var s := Decimal(n / 10) + [Digit(n % 10)];
      assert s[..|s| - 1] == Decimal(n / 10);
    }
  }

  /** `long(s)` of a string of digits. */
  function Number(s: string): (r: Option<nat>) {
    if s != [] && Digits(s) then Some(Value(s)) else None
  }

  lemma NumberOfDecimal(n: nat)
    ensures Number(Decimal(n)) == Some(n)
  {
    ValueOfDecimal(n);
  }

  // ------------------------------------------------------------------------- split

  /** `s.split(c)`. */
  function Split(s: string, c: char): (r: seq<string>)
    ensures |r| > 0
  {
    if s == [] then [[]]
    else
      var rest := Split(s[1..], c);
      if s[0] == c then [[]] + rest else [[s[0]] + rest[0]] + rest[1..]
  }

  function Join(fields: seq<string>, c: char): (s: string)
    requires |fields| > 0
  {
    if |fields| == 1 then fields[0] else fields[0] + [c] + Join(fields[1..], c)
  }

  lemma {:induction false} SplitWhole(s: string, c: char)
    requires c !in s
    ensures Split(s, c) == [s]
    decreases |s|
  {
    if s != [] {
      SplitWhole(s[1..], c);
      assert [s[0]] + s[1..] == s && |[s[1..]][1..]| == 0;
    }
  }

  lemma {:induction false} SplitFirst(a: string, c: char, b: string)
    requires c !in a
    ensures Split(a + [c] + b, c) == [a] + Split(b, c)
    decreases |a|
  {
    var s := a + [c] + b;
    if a == [] {
      assert s[1..] == b;
    } else {
      assert s[1..] == a[1..] + [c] + b;
      SplitFirst(a[1..], c, b);
      assert [a[0]] + a[1..] == a;
    }
  }

  lemma {:induction false} SplitJoin(fields: seq<string>, c: char)
    requires |fields| > 0 && forall k :: 0 <= k < |fields| ==> c !in fields[k]
    ensures Split(Join(fields, c), c) == fields
    decreases |fields|
  {
    if |fields| == 1 {
      SplitWhole(fields[0], c);
    } else {
      SplitJoin(fields[1..], c);
      SplitFirst(fields[0], c, Join(fields[1..], c));
      assert [fields[0]] + fields[1..] == fields;
    }
  }

  lemma {:induction false} JoinLacks(fields: seq<string>, c: char, x: char)
    requires |fields| > 0 && x != c && forall k :: 0 <= k < |fields| ==> x !in fields[k]
    ensures x !in Join(fields, c)
    decreases |fields|
  {
    if |fields| > 1 {
      JoinLacks(fields[1..], c, x);
    }
  }

  // ------------------------------------------------------------------------- strip

  predicate Space(c: char) {
    c == ' ' || '\t' <= c <= '\r'
  }

  function StripEnd(s: string): (r: string) {
    if s != [] && Space(s[|s| - 1]) then StripEnd(s[..|s| - 1]) else s
  }

  function StripStart(s: string): (r: string) {
    if s != [] && Space(s[0]) then StripStart(s[1..]) else s
  }

  /** `s.strip()`. */
  function Strip(s: string): (r: string) {
    StripEnd(StripStart(s))
  }

  predicate Tight(s: string) {
    s == [] || (!Space(s[0]) && !Space(s[|s| - 1]))
  }

  predicate Blank(s: string) {
    forall k :: 0 <= k < |s| ==> Space(s[k])
  }

  lemma {:induction false} StartStripped(s: string) returns (a: string)
    ensures Blank(a) && s == a + StripStart(s) && (StripStart(s) == [] || !Space(StripStart(s)[0]))
    decreases |s|
  {
    if s != [] && Space(s[0]) {
      var b := StartStripped(s[1..]);
      a := [s[0]] + b;
    } else {
      a := [];
    }
  }

  lemma {:induction false} EndStripped(s: string) returns (b: string)
    ensures Blank(b) && s == StripEnd(s) + b && (StripEnd(s) == [] || !Space(StripEnd(s)[|StripEnd(s)| - 1]))
    decreases |s|
  {
    if s != [] && Space(s[|s| - 1]) {
      var a := EndStripped(s[..|s| - 1]);
      b := a + [s[|s| - 1]];
    } else {
      b := [];
    }
  }

  /** Blanks at both ends go, and nothing else. */
  lemma StripIs(s: string) returns (a: string, b: string)
    ensures Blank(a) && Blank(b) && s == a + Strip(s) + b && Tight(Strip(s))
  {
    a := StartStripped(s);
    b := EndStripped(StripStart(s));
    var t := StripStart(s);
    assert Strip(s) != [] ==> Strip(s)[0] == t[0];
  }

  lemma StripTight(s: string)
    requires Tight(s)
    ensures Strip(s) == s
  {}

  lemma StripLine(s: string)
    requires s != [] && Tight(s)
    ensures Strip(s + "\n") == s
  {
    var line := s + "\n";
    assert line[0] == s[0] && StripStart(line) == line;
    assert line[|line| - 1] == '\n' && line[..|line| - 1] == s;
    assert StripEnd(line) == StripEnd(s) == s;
  }

  // ------------------------------------------------------------------------- lines

  /** The lines of a file, each with its newline. */
  function Lines(text: string): (r: seq<string>)
    decreases |text|
  {
    if text == [] then []
    else if text[0] == '\n' then ["\n"] + Lines(text[1..])
    else
      var rest := Lines(text[1..]);
      if rest == [] then [[text[0]]] else [[text[0]] + rest[0]] + rest[1..]
  }

  lemma {:induction false} FirstLine(s: string, rest: string)
    requires '\n' !in s
    ensures Lines(s + "\n" + rest) == [s + "\n"] + Lines(rest)
    decreases |s|
  {
    var text := s + "\n" + rest;
    if s == [] {
      assert text[0] == '\n' && text[1..] == rest && s + "\n" == "\n";
    } else {
      assert text[1..] == s[1..] + "\n" + rest;
      FirstLine(s[1..], rest);
      assert [s[0]] + (s[1..] + "\n") == s + "\n";
    }
  }

  function Concat(parts: seq<string>): (text: string) {
    if parts == [] then "" else Concat(parts[..|parts| - 1]) + parts[|parts| - 1]
  }

  lemma ConcatNext(parts: seq<string>, x: string)
    ensures Concat(parts + [x]) == Concat(parts) + x
  {
    assert (parts + [x])[..|parts|] == parts;
  }

  lemma {:induction false} ConcatFirst(first: string, rest: seq<string>)
    ensures Concat([first] + rest) == first + Concat(rest)
    decreases |rest|
  {
    if rest == [] {
      ConcatNext([], first);
      assert [first] + rest == [] + [first];
    } else {
      var n := |rest| - 1;
      var front, x := rest[..n], rest[n];
      ConcatFirst(first, front);
      ConcatNext([first] + front, x);
      TextAssociates(first, Concat(front), x);
      assert [first] + front + [x] == [first] + rest;
    }
  }

  lemma TextAssociates(s: string, t: string, u: string)
    ensures s + t + u == s + (t + u)
  {}

  predicate OneLine(s: string) {
    s != [] && s[|s| - 1] == '\n' && '\n' !in s[..|s| - 1]
  }

  /** Lines written one after another are read back one by one. */
  lemma {:induction false} LinesOfConcat(parts: seq<string>)
    requires forall k :: 0 <= k < |parts| ==> OneLine(parts[k])
    ensures Lines(Concat(parts)) == parts
    decreases |parts|
  {
    if parts != [] {
      var s := parts[0][..|parts[0]| - 1];
      assert parts[0] == s + "\n";
      ConcatFirst(parts[0], parts[1..]);
      assert parts == [parts[0]] + parts[1..];
      FirstLine(s, Concat(parts[1..]));
      LinesOfConcat(parts[1..]);
    }
  }

  /** The results of `f` for the elements in order. */
  function Each<T>(f: T -> string, s: seq<T>): (r: seq<string>)
    ensures |r| == |s| && forall k :: 0 <= k < |s| ==> r[k] == f(s[k])
  {
    seq(|s|, k requires 0 <= k < |s| => f(s[k]))
  }

  lemma EachNext<T>(f: T -> string, s: seq<T>, before: seq<string>)
    requires s != []
    ensures var n := |s| - 1;
            before + Each(f, s[..n]) + [f(s[n])] == before + Each(f, s) && s[..n] + [s[n]] == s
  {}

  /** The values of the items that are not empty, if all of them have one. */
  function Gather(num: string -> Option<nat>, items: seq<string>): (r: Option<seq<nat>>) {
    if items == [] then Some([])
    else
      var rest, last := Gather(num, items[..|items| - 1]), items[|items| - 1];
      if rest.None? then None
      else if last == "" then rest
      else if num(last).None? then None
      else Some(rest.value + [num(last).value])
  }

  lemma GatherNext(num: string -> Option<nat>, items: seq<string>, x: string)
    ensures Gather(num, items + [x]) ==
            var rest := Gather(num, items);
            if rest.None? then None
            else if x == "" then rest
            else if num(x).None? then None
            else Some(rest.value + [num(x).value])
  {
    assert (items + [x])[..|items|] == items;
  }

  lemma {:induction false} GatherFails(num: string -> Option<nat>, items: seq<string>, k: nat)
    requires k <= |items| && Gather(num, items[..k]).None?
    ensures Gather(num, items).None?
    decreases |items|
  {
    if k == |items| {
      assert items[..k] == items;
    } else {
      assert items[..|items| - 1][..k] == items[..k];
      GatherFails(num, items[..|items| - 1], k);
    }
  }

  /** Numbers written by `f` behind an empty item are gathered back by its inverse. */
  lemma {:induction false} GatherEach(num: string -> Option<nat>, f: nat -> string, s: seq<nat>)
    requires forall n: nat :: f(n) != "" && num(f(n)) == Some(n)
    ensures Gather(num, [""] + Each(f, s)) == Some(s)
    decreases |s|
  {
    if s == [] {
      GatherNext(num, [], "");
      assert [""] + Each(f, s) == [] + [""];
    } else {
      var n := |s| - 1;
      GatherEach(num, f, s[..n]);
      GatherNext(num, [""] + Each(f, s[..n]), f(s[n]));
      EachNext(f, s, [""]);
    }
  }

  /** The results of `f` for the lines in order, or the failure of one of them. */
  function All<T>(f: string -> Result<T>, lines: seq<string>): (r: Result<seq<T>>) {
    if lines == [] then Ok([])
    else
      var rest, last := All(f, lines[..|lines| - 1]), f(lines[|lines| - 1]);
      if rest.Err? || last.Err? then Err else Ok(rest.value + [last.value])
  }

  lemma {:induction false} AllOk<T>(f: string -> Result<T>, lines: seq<string>, s: seq<T>)
    requires |lines| == |s| && forall k :: 0 <= k < |lines| ==> f(lines[k]) == Ok(s[k])
    ensures All(f, lines) == Ok(s)
    decreases |lines|
  {
    if lines != [] {
      var n := |lines| - 1;
      AllOk(f, lines[..n], s[..n]);
      assert s == s[..n] + [s[n]];
    }
  }

  lemma {:induction false} AllEach<T>(f: string -> Result<T>, lines: seq<string>, s: seq<T>)
    requires All(f, lines) == Ok(s)
    ensures |lines| == |s| && forall k :: 0 <= k < |lines| ==> f(lines[k]) == Ok(s[k])
    decreases |lines|
  {
    if lines != [] {
      var n := |lines| - 1;
      AllEach(f, lines[..n], All(f, lines[..n]).value);
    }
  }

  lemma AllIff<T>(f: string -> Result<T>, lines: seq<string>, s: seq<T>)
    requires |lines| == |s|
    ensures All(f, lines) == Ok(s) <==> forall k :: 0 <= k < |lines| ==> f(lines[k]) == Ok(s[k])
  {
    if All(f, lines) == Ok(s) {
      AllEach(f, lines, s);
    } else if forall k :: 0 <= k < |lines| ==> f(lines[k]) == Ok(s[k]) {
      AllOk(f, lines, s);
    }
  }

  lemma {:induction false} AllFails<T>(f: string -> Result<T>, lines: seq<string>, k: nat)
    requires k <= |lines| && All(f, lines[..k]).Err?
    ensures All(f, lines).Err?
    decreases |lines|
  {
    if k == |lines| {
      assert lines[..k] == lines;
    } else {
      assert lines[..|lines| - 1][..k] == lines[..k];
      AllFails(f, lines[..|lines| - 1], k);
    }
  }

  lemma AllNext<T>(f: string -> Result<T>, lines: seq<string>, k: nat)
    requires k < |lines|
    ensures All(f, lines[..k + 1]) ==
            var rest, last := All(f, lines[..k]), f(lines[k]);
            if rest.Err? || last.Err? then Err else Ok(rest.value + [last.value])
  {
    assert lines[..k + 1][..k] == lines[..k];
  }
}
