/** The bounded cursor over network-byte-order structures, and what each read returns. */
module WireReader {
  import opened Wrappers
  import opened Bytes

  datatype ParseKind =
    | NegativeSize | Truncated | TrailingBytes | OddLength | EmptyCiphers | EmptyCompression
    | DuplicateExtension | UnexpectedContentType | NotClientHello | NotAscii | UnsupportedVersion

  /** An error with the absolute offset it is reported at. */
  datatype ParseError = ParseError(kind: ParseKind, offset: int)

  function U16(b: bytes): (n: nat)
    requires |b| == 2
    ensures n < 0x1_0000
  {
    (b[0] as int) * 256 + b[1]
  }

  function U24(b: bytes): (n: nat)
    requires |b| == 3
    ensures n < 0x100_0000
  {
    (b[0] as int) * 65536 + (b[1] as int) * 256 + b[2]
  }

  function FromU16(n: nat): (b: bytes)
    requires n < 0x1_0000
    ensures |b| == 2 && U16(b) == n
  {
    var high: int := n / 256;
    var low: int := n % 256;
    [high, low]
  }

  function FromU24(n: nat): (b: bytes)
    requires n < 0x100_0000
    ensures |b| == 3 && U24(b) == n
  {
    var high: int := n / 65536;
    var middle: int := n / 256 % 256;
    var low: int := n % 256;
    [high, middle, low]
  }

  lemma FromU16Of(b: bytes)
    requires |b| == 2
    ensures FromU16(U16(b)) == b
  {}

  lemma FromU24Of(b: bytes)
    requires |b| == 3
    ensures FromU24(U24(b)) == b
  {
    var high: int, middle: int, low: int := b[0] as int, b[1] as int, b[2] as int;
    var n := high * 65536 + middle * 256 + low;
    assert n / 256 == high * 256 + middle && n / 65536 == high && n / 256 % 256 == middle && n % 256 == low;
  }

  /** `size` octets at `p`, and the position after them. */
  function Take(s: bytes, p: nat, size: nat, base: nat): Result<(bytes, nat), ParseError>
    requires p <= |s|
  {
    if size > |s| - p then Failure(ParseError(Truncated, base + p)) else Success((s[p..p + size], p + size))
  }

  function TakeU8(s: bytes, p: nat, base: nat): Result<(nat, nat), ParseError>
    requires p <= |s|
  {
    var t := Take(s, p, 1, base);
    if t.Failure? then Failure(t.error) else Success((t.value.0[0], t.value.1))
  }

  function TakeU16(s: bytes, p: nat, base: nat): Result<(nat, nat), ParseError>
    requires p <= |s|
  {
    var t := Take(s, p, 2, base);
    if t.Failure? then Failure(t.error) else Success((U16(t.value.0), t.value.1))
  }

  function TakeU24(s: bytes, p: nat, base: nat): Result<(nat, nat), ParseError>
    requires p <= |s|
  {
    var t := Take(s, p, 3, base);
    if t.Failure? then Failure(t.error) else Success((U24(t.value.0), t.value.1))
  }

  function TakeVector8(s: bytes, p: nat, base: nat): Result<(bytes, nat), ParseError>
    requires p <= |s|
  {
    var n := TakeU8(s, p, base);
    if n.Failure? then Failure(n.error) else Take(s, n.value.1, n.value.0, base)
  }

  function TakeVector16(s: bytes, p: nat, base: nat): Result<(bytes, nat), ParseError>
    requires p <= |s|
  {
    var n := TakeU16(s, p, base);
    if n.Failure? then Failure(n.error) else Take(s, n.value.1, n.value.0, base)
  }

  class Reader {
    const data: bytes
    const base: nat
    var cursor: nat

    ghost predicate Valid()
      reads this
    {
      cursor <= |data|
    }

    constructor (data: bytes, base: nat)
      ensures Valid() && this.data == data && this.base == base && cursor == 0
    {
      this.data, this.base, cursor := data, base, 0;
    }

    function Remaining(): int
      reads this
    {
      |data| - cursor
    }

    function Offset(): nat
      reads this
    {
      base + cursor
    }

    /** What a read that the specification says ends in `spec` did to the cursor. */
    ghost predicate Moved<T>(r: Result<T, ParseError>, spec: Result<(T, nat), ParseError>)
      reads this
    {
      match spec
      case Failure(e) => r == Failure(e) && cursor <= |data|
      case Success((v, p)) => r == Success(v) && cursor == p <= |data|
    }

    method TakeBytes(size: int) returns (r: Result<bytes, ParseError>)
      requires Valid()
      modifies this`cursor
      ensures Valid()
      ensures size < 0 ==> r == Failure(ParseError(NegativeSize, old(Offset()))) && cursor == old(cursor)
      ensures size >= 0 ==> Moved(r, Take(data, old(cursor), size, base))
    {
      if size < 0 {
        return Failure(ParseError(NegativeSize, Offset()));
      }
      if size > Remaining() {
        return Failure(ParseError(Truncated, Offset()));
      }
      var start := cursor;
      cursor := cursor + size;
      r := Success(data[start..cursor]);
    }

    method ReadU8() returns (r: Result<nat, ParseError>)
      requires Valid()
      modifies this`cursor
      ensures Valid() && Moved(r, TakeU8(data, old(cursor), base))
      ensures r.Success? ==> r.value < 256
    {
      var t := TakeBytes(1);
      r := if t.Failure? then Failure(t.error) else Success(t.value[0]);
    }

    method ReadU16() returns (r: Result<nat, ParseError>)
      requires Valid()
      modifies this`cursor
      ensures Valid() && Moved(r, TakeU16(data, old(cursor), base))
    {
      var t := TakeBytes(2);
      r := if t.Failure? then Failure(t.error) else Success(U16(t.value));
    }

    method ReadU24() returns (r: Result<nat, ParseError>)
      requires Valid()
      modifies this`cursor
      ensures Valid() && Moved(r, TakeU24(data, old(cursor), base))
    {
      var t := TakeBytes(3);
      r := if t.Failure? then Failure(t.error) else Success(U24(t.value));
    }

    method ReadVector8() returns (r: Result<bytes, ParseError>)
      requires Valid()
      modifies this`cursor
      ensures Valid() && Moved(r, TakeVector8(data, old(cursor), base))
    {
      var n := ReadU8();
      if n.Failure? {
        return Failure(n.error);
      }
      r := TakeBytes(n.value);
    }

    method ReadVector16() returns (r: Result<bytes, ParseError>)
      requires Valid()
      modifies this`cursor
      ensures Valid() && Moved(r, TakeVector16(data, old(cursor), base))
    {
      var n := ReadU16();
      if n.Failure? {
        return Failure(n.error);
      }
      r := TakeBytes(n.value);
    }

    /** Unread input is an error. */
    method Finish() returns (r: Result<(), ParseError>)
      requires Valid()
      ensures r.Success? <==> cursor == |data|
      ensures r.Failure? ==> r.error == ParseError(TrailingBytes, base + cursor)
    {
      r := if Remaining() != 0 then Failure(ParseError(TrailingBytes, Offset())) else Success(());
    }
  }
}
