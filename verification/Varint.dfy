/** Length-prefixed messages (`gem5/util/protolib.py`): the "Base 128 Varints" of the
    Protocol Buffers encoding, least significant group first. */
module Varint {
  import opened Wrappers

  type Byte = x: int | 0 <= x < 256
  type Bytes = seq<Byte>

  const WORD32: nat := 0x1_0000_0000
  const SIGN64: nat := 0x8000_0000_0000_0000
  const MAX_BYTES: nat := 10

  // --------------------------------------------------------------------- encoding

  function Encoded(value: nat): (r: Bytes)
    ensures |r| > 0 && r[|r| - 1] < 128 && forall i :: 0 <= i < |r| - 1 ==> r[i] >= 128
  {
    if value < 128 then [value] else [128 + value % 128] + Encoded(value / 128)
  }

  /** Bytes written so far, and the number still to be written. */
  ghost predicate Half(out: Bytes, rest: nat, goal: Bytes) {
    out + Encoded(rest) == goal
  }

  lemma HalfNext(out: Bytes, rest: nat, goal: Bytes, bits: Byte, left: nat)
    requires Half(out, rest, goal) && rest == bits + 128 * left && bits < 128
    ensures left > 0 ==> Half(out + [128 + bits], left, goal)
    ensures left == 0 ==> out + [bits] == goal
  {
    if left > 0 {
      assert rest % 128 == bits && rest / 128 == left;
      BytesAssociate(out, [128 + bits], Encoded(left));
    }
  }

  lemma BytesAssociate(a: Bytes, b: Bytes, c: Bytes)
    ensures a + (b + c) == a + b + c
  {}

  method SplitLow(value: nat) returns (bits: Byte, left: nat)
    ensures value == bits + 128 * left && bits < 128
  {
    bits, left := value % 128, value / 128;
  }

  /** One turn of the encoding loop: a byte is written, the rest shifted down. */
  method EncodeByte(out: Bytes, bits: Byte, left: nat, ghost rest: nat, ghost goal: Bytes)
    returns (o: Bytes, b: Byte, l: nat)
    requires Half(out, rest, goal) && rest == bits + 128 * left && bits < 128 && left > 0
    ensures Half(o, left, goal) && left == b + 128 * l && b < 128
  {
    HalfNext(out, rest, goal, bits, left);
    o := out + [128 + bits];
    b, l := SplitLow(left);
  }

  /** `_EncodeVarint32`. */
  method EncodeVarint(value: nat) returns (out: Bytes)
    ensures out == Encoded(value)
  {
    out := [];
    var bits: Byte, left: nat := SplitLow(value);
    ghost var rest: nat, goal := value, Encoded(value);
    while left != 0
      invariant rest == bits + 128 * left && bits < 128 && Half(out, rest, goal)
      decreases left
    {
      ghost var next := left;
      out, bits, left := EncodeByte(out, bits, left, rest, goal);
      rest := next;
    }
    HalfNext(out, rest, goal, bits, left);
    out := out + [bits];
  }

  // --------------------------------------------------------------------- decoding

  function Pow128(k: nat): (r: nat)
    ensures r > 0
  {
    if k == 0 then 1 else 128 * Pow128(k - 1)
  }

  /** The groups of seven bits read as one number. */
  function Groups(s: Bytes): (r: nat)
    ensures r < Pow128(|s|)
  {
    if s == [] then 0 else s[0] % 128 + 128 * Groups(s[1..])
  }

  lemma {:induction false} GroupsNext(s: Bytes, b: Byte)
    ensures Groups(s + [b]) == Groups(s) + b % 128 * Pow128(|s|)
    decreases |s|
  {
    if s == [] {
      assert |[b][1..]| == 0 && Groups([b]) == b % 128 + 128 * Groups([b][1..]);
    } else {
      assert (s + [b])[1..] == s[1..] + [b];
      GroupsNext(s[1..], b);
      Distribute(Groups(s[1..]), b % 128, Pow128(|s| - 1));
    }
  }

  lemma Distribute(a: nat, b: nat, c: nat)
    ensures 128 * (a + b * c) == 128 * a + b * (128 * c)
  {}

  /** The number of leading bytes that announce a further one. */
  function Continued(s: Bytes): (n: nat)
    ensures n <= |s| && (forall i :: 0 <= i < n ==> s[i] >= 128) && (n < |s| ==> s[n] < 128)
  {
    if s == [] || s[0] < 128 then 0 else 1 + Continued(s[1..])
  }

  /** What becomes of the number: 32 bits are kept; from bit 63 on they are taken as
      negative. */
  function Narrow(v: nat): (r: int) {
    if v >= SIGN64 then v % WORD32 - WORD32 else v % WORD32
  }

  datatype Outcome = Value(result: int) | EndOfFile | TooManyBytes

  /** A varint at the front of the bytes, and what is left behind it. */
  function DecodeVarint(s: Bytes): (r: (Outcome, Bytes)) {
    var n := Continued(s);
    if n < |s| && n < MAX_BYTES then (Value(Narrow(Groups(s[..n + 1]))), s[n + 1..])
    else if |s| < MAX_BYTES then (EndOfFile, [])
    else (TooManyBytes, s[MAX_BYTES..])
  }

  /** Whatever the bytes are, decoding looks at no more than ten of them. */
  lemma DecodeStops(s: Bytes)
    ensures var rest := DecodeVarint(s).1; |rest| + MAX_BYTES >= |s| && rest == s[|s| - |rest|..]
    ensures s != [] ==> |DecodeVarint(s).1| < |s|
  {}

  /** `pos` bytes have been read, all of them announcing a further one. */
  ghost predicate Reading(s: Bytes, left: Bytes, pos: nat, result: nat, weight: nat) {
    && pos <= |s| && left == s[pos..] && result == Groups(s[..pos]) && weight == Pow128(pos)
    && forall i :: 0 <= i < pos ==> s[i] >= 128
  }

  lemma ReadingNext(s: Bytes, left: Bytes, pos: nat, result: nat, weight: nat)
    requires Reading(s, left, pos, result, weight) && left != [] && pos < MAX_BYTES
    ensures var next := result + left[0] % 128 * weight;
            if left[0] >= 128 then Reading(s, left[1..], pos + 1, next, 128 * weight)
            else DecodeVarint(s) == (Value(Narrow(next)), left[1..])
  {
    assert s[..pos + 1] == s[..pos] + [s[pos]] && left[0] == s[pos] && left[1..] == s[pos + 1..];
    GroupsNext(s[..pos], s[pos]);
    if left[0] < 128 {
      assert Continued(s) == pos;
    }
  }

  lemma ReadingEnds(s: Bytes, left: Bytes, pos: nat, result: nat, weight: nat)
    requires Reading(s, left, pos, result, weight)
    ensures left == [] && pos < MAX_BYTES ==> DecodeVarint(s) == (EndOfFile, [])
    ensures pos == MAX_BYTES ==> DecodeVarint(s) == (TooManyBytes, left)
  {}

  /** A file being read. */
  class InFile {
    var left: Bytes

    constructor (bytes: Bytes)
      ensures left == bytes
    {
      left := bytes;
    }

    /** `read(size)`: at most that many bytes; all of them if the size is negative. */
    method Read(size: int) returns (out: Bytes)
      modifies this
      ensures var n := if size < 0 || size > |old(left)| then |old(left)| else size;
              out == old(left)[..n] && left == old(left)[n..]
    {
      var n := if size < 0 || size > |left| then |left| else size;
      out, left := left[..n], left[n..];
    }

    /** `_DecodeVarint32`. The bits of each byte go above those read before, so the
        bitwise or of the code is a sum. */
    method ReadVarint() returns (r: Outcome)
      modifies this
      ensures (r, left) == DecodeVarint(old(left))
    {
      ghost var s := left;
      var result: nat, weight: nat, pos: nat := 0, 1, 0;
      while true
        invariant pos < MAX_BYTES && Reading(s, left, pos, result, weight)
        decreases MAX_BYTES - pos
      {
        ReadingEnds(s, left, pos, result, weight);
        if left != [] {
          ReadingNext(s, left, pos, result, weight);
        }
        var c := Read(1);
        if |c| == 0 {
          return EndOfFile;
        }
        var b := c[0];
        result := result + b % 128 * weight;
        pos := pos + 1;
        if b < 128 {
          return Value(Narrow(result));
        }
        weight := 128 * weight;
        if pos >= MAX_BYTES {
          ReadingEnds(s, left, pos, result, weight);
          return TooManyBytes;
        }
      }
    }

    /** `decodeMessage`: false at a zero length, at the end and at an overlong varint. */
    method ReadMessage() returns (ok: bool, message: Bytes)
      modifies this
      ensures (if ok then Some(message) else None, left) == DecodeMessage(old(left))
    {
      message := [];
      var size := ReadVarint();
      if !size.Value? || size.result == 0 {
        return false, [];
      }
      message := Read(size.result);
      return true, message;
    }

    /** Messages until one cannot be read. */
    method ReadAll() returns (messages: seq<Bytes>)
      modifies this
      ensures messages == DecodeAll(old(left))
    {
      messages := [];
      ghost var s := left;
      var ok := true;
      while ok
        invariant ok ==> messages + DecodeAll(left) == DecodeAll(s)
        invariant !ok ==> messages == DecodeAll(s)
        decreases ok, |left|
      {
        ghost var before := left;
        DecodeShrinks(left);
        var message;
        ok, message := ReadMessage();
        DecodeAllUnfold(before);
        if ok {
          JoinAssociates(messages, message, DecodeAll(left));
          messages := messages + [message];
        }
      }
    }
  }

  /** A message at the front of the bytes, and what is left behind it. */
  function DecodeMessage(s: Bytes): (r: (Option<Bytes>, Bytes)) {
    var (size, rest) := DecodeVarint(s);
    if !size.Value? || size.result == 0 then (None, rest)
    else
      var n := if size.result < 0 || size.result > |rest| then |rest| else size.result;
      (Some(rest[..n]), rest[n..])
  }

  lemma DecodeShrinks(s: Bytes)
    ensures DecodeMessage(s).0.Some? ==> |DecodeMessage(s).1| < |s|
  {
    DecodeStops(s);
  }

  function DecodeAll(s: Bytes): (messages: seq<Bytes>)
    decreases |s|
  {
    DecodeShrinks(s);
    var (message, rest) := DecodeMessage(s);
    if message.Some? then [message.value] + DecodeAll(rest) else []
  }

  lemma DecodeAllUnfold(s: Bytes)
    ensures DecodeAll(s) ==
            if DecodeMessage(s).0.Some? then [DecodeMessage(s).0.value] + DecodeAll(DecodeMessage(s).1) else []
  {
    DecodeShrinks(s);
  }

  lemma JoinAssociates(a: seq<Bytes>, m: Bytes, b: seq<Bytes>)
    ensures a + ([m] + b) == a + [m] + b
  {}

  // -------------------------------------------------------------------- round trips

  lemma {:induction false} GroupsEncoded(value: nat)
    ensures Groups(Encoded(value)) == value
    decreases value
  {
    if value < 128 {
      assert |[value][1..]| == 0;
    } else {
      GroupsEncoded(value / 128);
      assert Encoded(value)[1..] == Encoded(value / 128);
    }
  }

  /** A 32-bit number takes at most five bytes. */
  lemma EncodedShort(value: nat)
    requires value < WORD32
    ensures |Encoded(value)| <= 5
  {
    var a, b, c := value / 128, value / 128 / 128, value / 128 / 128 / 128;
    var d := c / 128;
    assert d < 128;
    assert |Encoded(d)| == 1;
    assert |Encoded(c)| <= 2;
    assert |Encoded(b)| <= 3;
    assert |Encoded(a)| <= 4;
  }

  lemma {:induction false} ContinuedEncoded(s: Bytes, rest: Bytes)
    requires |s| > 0 && s[|s| - 1] < 128 && forall i :: 0 <= i < |s| - 1 ==> s[i] >= 128
    ensures Continued(s + rest) == |s| - 1
    decreases |s|
  {
    if |s| > 1 {
      assert (s + rest)[1..] == s[1..] + rest;
      ContinuedEncoded(s[1..], rest);
    }
  }

  lemma DecodeFront(code: Bytes, rest: Bytes)
    requires 0 < |code| <= MAX_BYTES && code[|code| - 1] < 128 && forall i :: 0 <= i < |code| - 1 ==> code[i] >= 128
    ensures DecodeVarint(code + rest) == (Value(Narrow(Groups(code))), rest)
  {
    ContinuedEncoded(code, rest);
    assert (code + rest)[..|code|] == code && (code + rest)[|code|..] == rest;
  }

  /** Any 32-bit number is read back, whatever follows it. */
  lemma VarintRoundTrip(value: nat, rest: Bytes)
    requires value < WORD32
    ensures DecodeVarint(Encoded(value) + rest) == (Value(value), rest)
  {
    EncodedShort(value);
    DecodeFront(Encoded(value), rest);
    GroupsEncoded(value);
    NarrowKeeps(value);
  }

  lemma NarrowKeeps(value: nat)
    requires value < WORD32
    ensures Narrow(value) == value
  {}

  /** `encodeMessage`. */
  method EncodeMessage(out: Bytes, message: Bytes) returns (r: Bytes)
    ensures r == out + (Encoded(|message|) + message)
  {
    var size := EncodeVarint(|message|);
    BytesAssociate(out, size, message);
    r := out + size + message;
  }

  function EncodeAll(messages: seq<Bytes>): (r: Bytes) {
    if messages == [] then [] else Encoded(|messages[0]|) + messages[0] + EncodeAll(messages[1..])
  }

  lemma {:induction false} EncodeNext(messages: seq<Bytes>, k: nat)
    requires k < |messages|
    ensures EncodeAll(messages[..k + 1]) == EncodeAll(messages[..k]) + (Encoded(|messages[k]|) + messages[k])
    decreases k
  {
    var m := messages[k];
    if k == 0 {
      assert messages[..1][1..] == [];
    } else {
      EncodeNext(messages[1..], k - 1);
      assert messages[..k + 1][1..] == messages[1..][..k] && messages[..k][1..] == messages[1..][..k - 1];
      BytesAssociate(Encoded(|messages[0]|) + messages[0], EncodeAll(messages[1..][..k - 1]), Encoded(|m|) + m);
    }
  }

  /** A file written message by message. */
  method WriteAll(messages: seq<Bytes>) returns (out: Bytes)
    ensures out == EncodeAll(messages)
  {
    out := [];
    for k := 0 to |messages|
      invariant out == EncodeAll(messages[..k])
    {
      EncodeNext(messages, k);
      out := EncodeMessage(out, messages[k]);
    }
    assert messages[..|messages|] == messages;
  }

  lemma MessageBehind(code: Bytes, message: Bytes, rest: Bytes)
    requires message != [] && DecodeVarint(code + (message + rest)) == (Value(|message|), message + rest)
    ensures DecodeMessage(code + message + rest) == (Some(message), rest)
  {
    BytesAssociate(code, message, rest);
    assert (message + rest)[..|message|] == message && (message + rest)[|message|..] == rest;
  }

  lemma MessageRoundTrip(message: Bytes, rest: Bytes)
    requires 0 < |message| < WORD32
    ensures DecodeMessage(Encoded(|message|) + message + rest) == (Some(message), rest)
  {
    VarintRoundTrip(|message|, message + rest);
    MessageBehind(Encoded(|message|), message, rest);
  }

  lemma FirstRead(message: Bytes, rest: Bytes)
    requires 0 < |message| < WORD32
    ensures DecodeAll(Encoded(|message|) + message + rest) == [message] + DecodeAll(rest)
  {
    MessageRoundTrip(message, rest);
    DecodeAllUnfold(Encoded(|message|) + message + rest);
  }

  /** The messages before the first empty one. */
  function UntilEmpty(messages: seq<Bytes>): (r: seq<Bytes>)
    ensures r <= messages && forall k :: 0 <= k < |r| ==> r[k] != []
    ensures |r| < |messages| ==> messages[|r|] == []
  {
    if messages == [] || messages[0] == [] then [] else [messages[0]] + UntilEmpty(messages[1..])
  }

  lemma EmptyStops(rest: Bytes)
    ensures DecodeAll(Encoded(0) + [] + rest) == []
  {
    assert Encoded(0) + [] + rest == Encoded(0) + rest;
    VarintRoundTrip(0, rest);
    DecodeAllUnfold(Encoded(0) + rest);
  }

  /** What is read back of any list of messages: those before the first empty one. */
  lemma {:induction false} ReadBack(messages: seq<Bytes>)
    requires forall k :: 0 <= k < |messages| ==> |messages[k]| < WORD32
    ensures DecodeAll(EncodeAll(messages)) == UntilEmpty(messages)
    decreases |messages|
  {
    if messages != [] {
      var rest := messages[1..];
      if messages[0] == [] {
        EmptyStops(EncodeAll(rest));
      } else {
        FirstRead(messages[0], EncodeAll(rest));
        ReadBack(rest);
      }
    }
  }

  /** Every message is read back if and only if none is empty. */
  lemma RoundTripIffNoneEmpty(messages: seq<Bytes>)
    requires forall k :: 0 <= k < |messages| ==> |messages[k]| < WORD32
    ensures DecodeAll(EncodeAll(messages)) == messages <==> forall k :: 0 <= k < |messages| ==> messages[k] != []
  {
    ReadBack(messages);
  }
}
