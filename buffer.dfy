/** The `Buffer` class of node_buffer/__init__.py: one fixed-length `bytearray`, changed in
    place only by the loop in `write`, and read by pure accessors. */
module NodeBuffer {
  import opened Base
  import opened Hex
  import opened Format
  import opened Search
  import opened Values
  import opened Pattern

  /** An argument `new` accepts in either of its trailing positions. */
  datatype Arg = IntArg(i: int) | StrArg(s: string)

  /** Where the loop of `write` stops: `length or min(len(self), len(stack))`. A zero length is
      the same as none, and without one the end does not depend on the offset. */
  function WriteEnd(size: nat, stack: seq<int>, length: int): (e: int)
    ensures length != 0 ==> e == length
    ensures length == 0 ==> e <= size && e <= |stack| && (e == size || e == |stack|)
  {
    if length != 0 then length else Min(size, |stack|)
  }

  /** The loop of `write` over [offset, end) raises nothing: every index is inside the buffer and
      the stack, and every value written is a byte. */
  predicate WriteFits(size: nat, stack: seq<int>, offset: int, end: int) {
    0 <= offset && (offset < end ==> end <= size && end - offset <= |stack| && AllBytes(stack[..end - offset]))
  }

  /** What `write(val, offset, length)` demands of a buffer of `size` bytes once `val` settles. */
  predicate WriteOk(size: nat, val: Value, offset: int, length: int, encode: Encoder) {
    match Settle(val, "utf8", encode)
    case Err(_) => true
    case Ok(stack) => WriteFits(size, stack, offset, WriteEnd(size, stack, length))
  }

  /** `end or len(self)`. */
  function FillTotal(size: nat, end: int): int {
    if end != 0 then end else size
  }

  /** What `fill(value, offset, end)` demands of a buffer of `size` bytes once `value` settles to
      a non-empty pattern: the span fits and the part of the pattern it uses is bytes. */
  predicate FillOk(size: nat, value: Value, offset: int, end: int, encode: Encoder) {
    match Settle(value, "utf8", encode)
    case Err(_) => true
    case Ok(content) =>
      var total := FillTotal(size, end);
      |content| == 0 ||
      (0 <= offset && (offset < total ==> total <= size && AllBytes(content[..Min(|content|, total - offset)])))
  }

  /** The arguments of `new` after its swap: an int passed as `encoding` is the length, and the
      encoding is then the old `length` if that was a str, else 'utf8'. */
  function NewArgs(encoding: Arg, length: Arg): (string, Arg) {
    if encoding.IntArg? then (if length.StrArg? then length.s else "utf8", IntArg(encoding.i))
    else (encoding.s, length)
  }

  /** `length or len(content)`; a non-empty str reaching `bytearray` is a TypeError. */
  function NewLength(content: seq<int>, length: Arg): (r: Result<int>)
    ensures r.Ok? && r.value != |content| ==> length == IntArg(r.value) && r.value != 0
    ensures r.Err? <==> length.StrArg? && length.s != ""
    ensures r.Err? ==> r.error == TypeError
    ensures length.IntArg? && length.i != 0 ==> r == Ok(length.i)
    ensures length == IntArg(0) || length == StrArg("") ==> r == Ok(|content|)
  {
    match length
    case IntArg(i) => Ok(if i != 0 then i else |content|)
    case StrArg(s) => if s == "" then Ok(|content|) else Err(TypeError)
  }

  /** The bytes `Buffer.new(val, encoding, length)` ends up holding, or the error it raises. The
      write of the content into the fresh buffer stops at the first index whose value is not a
      byte (ValueError) or that is past the content (IndexError). */
  function NewContents(val: Value, encoding: Arg, length: Arg, encode: Encoder): (r: Result<seq<byte>>)
    ensures r.Ok? ==> Settle(val, NewArgs(encoding, length).0, encode).Ok?
    ensures r.Ok? ==> var c := Settle(val, NewArgs(encoding, length).0, encode).value;
      |r.value| <= |c| && forall i :: 0 <= i < |r.value| ==> r.value[i] == c[i]
    // the errors, in the order `new` meets them: settling, the length, `bytearray(n)` for a
    // negative n, then the write of the content, which stops at the first value that is not a
    // byte (ValueError) or at the end of the content (IndexError)
    ensures var s := Settle(val, NewArgs(encoding, length).0, encode);
      && (s.Err? ==> r == Err(s.error))
      && (s.Ok? ==>
            var c, len := s.value, NewLength(s.value, NewArgs(encoding, length).1);
            && (len.Err? ==> r == Err(len.error))
            && (len.Ok? ==>
                  var n := len.value;
                  && (n < 0 ==> r == Err(ValueError))
                  && (n >= 0 && !AllBytes(c[..Min(n, |c|)]) ==> r == Err(ValueError))
                  && (n >= 0 && AllBytes(c[..Min(n, |c|)]) && n > |c| ==> r == Err(IndexError))
                  && (r.Ok? <==> 0 <= n <= |c| && AllBytes(c[..n]))
                  && (r.Ok? ==> |r.value| == n)))
  {
    var (enc, len) := NewArgs(encoding, length);
    match Settle(val, enc, encode)
    case Err(e) => Err(e)
    case Ok(content) =>
      match NewLength(content, len)
      case Err(e) => Err(e)
      case Ok(n) =>
        if n < 0 then Err(ValueError)
        else if !AllBytes(content[..Min(n, |content|)]) then Err(ValueError)
        else if n > |content| then Err(IndexError)
        else
          var b: seq<byte> := content[..n];
          Ok(b)
  }

  /** Left alone, the length is the settled content's, and the buffer holds exactly that content. */
  lemma NewDefaultLength(val: Value, encoding: string, encode: Encoder)
    requires Settle(val, encoding, encode).Ok? && AllBytes(Settle(val, encoding, encode).value)
    ensures NewContents(val, StrArg(encoding), IntArg(0), encode) == Ok(Settle(val, encoding, encode).value)
  {
    var c := Settle(val, encoding, encode).value;
    assert c[..|c|] == c;
  }

  /** An explicit length truncates the content; a negative one, or one past the content, raises. */
  lemma NewExplicitLength(val: Value, encoding: string, n: int, encode: Encoder)
    requires n != 0 && Settle(val, encoding, encode).Ok?
    requires AllBytes(Settle(val, encoding, encode).value)
    ensures var c := Settle(val, encoding, encode).value;
      NewContents(val, StrArg(encoding), IntArg(n), encode)
        == if n < 0 then Err(ValueError) else if n > |c| then Err(IndexError) else Ok(c[..n])
  {
    var c := Settle(val, encoding, encode).value;
    if n > 0 {
      assert AllBytes(c[..Min(n, |c|)]) by {
        forall j | 0 <= j < Min(n, |c|) ensures IsByte(c[..Min(n, |c|)][j]) { assert c[..Min(n, |c|)][j] == c[j]; }
      }
    }
  }

  /** An int in the place of the encoding is taken as the length. */
  lemma NewIntEncodingIsLength(val: Value, n: int, length: Arg, encode: Encoder)
    ensures NewContents(val, IntArg(n), length, encode)
         == NewContents(val, StrArg(if length.StrArg? then length.s else "utf8"), IntArg(n), encode)
  {
  }

  /** `Buffer.new([300])` and `Buffer.new(300)` raise ValueError: 300 is not a byte. */
  lemma NewNonByte()
    ensures NewContents(SeqV([300]), StrArg("utf8"), IntArg(0), NoCodec) == Err(ValueError)
    ensures NewContents(IntV(300), StrArg("utf8"), IntArg(0), NoCodec) == Err(ValueError)
  {
    assert !IsByte([300][..1][0]);
  }

  /** `Buffer.new(h, 'hex')` holds bytes whose `hex()` is the lowercase form of h. */
  lemma NewHexRoundTrip(h: string, encode: Encoder)
    requires IsHexText(h)
    ensures NewContents(StrV(h), StrArg("hex"), IntArg(0), encode).Ok?
    ensures ToHex(NewContents(StrV(h), StrArg("hex"), IntArg(0), encode).value) == Lower(h)
  {
    HexTextRoundTrip(h);
    NewDefaultLength(StrV(h), "hex", encode);
  }

  /** The bytes `Buffer.alloc(n, fill)` holds, or the error it raises. A truthy fill covers the
      whole buffer with the settled pattern. */
  function AllocContents(n: int, fill: Value, encode: Encoder): (r: Result<seq<byte>>)
    ensures r.Ok? ==> |r.value| == n
    ensures n < 0 ==> r == Err(ValueError)
    // without a fill every byte is zero, so `size()` is 0
    ensures r.Ok? && !Truthy(fill) ==> NonZeroCount(r.value) == 0
    ensures r.Ok? && Truthy(fill) ==>
              Settle(fill, "utf8", encode).Ok? &&
              var c := Settle(fill, "utf8", encode).value;
              |c| > 0 && forall i :: 0 <= i < n ==> r.value[i] == c[i % |c|]
    ensures r.Err? && n >= 0 ==> Truthy(fill)
    ensures n >= 0 && !Truthy(fill) ==> r == Ok(Zeros(n))
    // with a fill, alloc succeeds exactly when the fill settles to a non-empty pattern whose
    // values used are bytes; otherwise the settle error, ZeroDivisionError or ValueError
    ensures n >= 0 && Truthy(fill) ==>
              && (Settle(fill, "utf8", encode).Err? ==> r == Err(Settle(fill, "utf8", encode).error))
              && (Settle(fill, "utf8", encode).Ok? ==>
                    var c := Settle(fill, "utf8", encode).value;
                    && (r.Ok? <==> |c| > 0 && AllBytes(c[..Min(|c|, n)]))
                    && (|c| == 0 ==> r == Err(ZeroDivisionError))
                    && (|c| > 0 && !AllBytes(c[..Min(|c|, n)]) ==> r == Err(ValueError)))
  {
    if n < 0 then Err(ValueError)
    else if !Truthy(fill) then
      NonZeroCountZero(Zeros(n));
      Ok(Zeros(n))
    else
      match Settle(fill, "utf8", encode)
      case Err(e) => Err(e)
      case Ok(c) =>
        if |c| == 0 then Err(ZeroDivisionError)
        else if !AllBytes(c[..Min(|c|, n)]) then Err(ValueError)
        else
          var b: seq<byte> := seq(n, i requires 0 <= i < n => PatternByte(c, n, i));
          Ok(b)
  }

  /** `Buffer.alloc(3, 1).tolist() == [1, 1, 1]`. */
  lemma AllocFilledExample()
    ensures AllocContents(3, IntV(1), NoCodec) == Ok([1, 1, 1])
  {
    var r := AllocContents(3, IntV(1), NoCodec);
    assert Settle(IntV(1), "utf8", NoCodec) == Ok([1]);
    assert r.Ok? && |r.value| == 3;
    assert r.value[0] == 1 && r.value[1] == 1 && r.value[2] == 1;
    assert r.value == [1, 1, 1];
  }

  function PatternByte(c: seq<int>, n: nat, i: nat): (b: byte)
    requires 0 < |c| && i < n && AllBytes(c[..Min(|c|, n)])
    ensures b == c[i % |c|]
  {
    var j := i % |c|;
    assert j < Min(|c|, n) by { if i < |c| { ModSmall(i, |c|); } }
    assert c[..Min(|c|, n)][j] == c[j];
    c[j]
  }

  lemma ModSmall(i: int, n: int)
    requires 0 <= i < n
    ensures i % n == i
  {
    ModUnique(i, n, 0, i);
  }

  class Buffer {
    /** The wrapped `bytearray`; set once, by allocation. */
    var data: array<byte>

    /** `bytearray(n)` stored in a fresh object, as `alloc` does. */
    constructor (n: nat)
      ensures fresh(data) && data[..] == Zeros(n)
    {
      data := new byte[n](i => 0);
    }

    /** `len(self)` and the `length` property. */
    function Length(): (r: nat)
      reads this, data
      ensures r == |ToList()|
    {
      data.Length
    }

    /** `self[index]`: a negative index counts from the end. */
    function Get(index: int): (r: Result<byte>)
      reads this, data
      ensures 0 <= index < data.Length ==> r == Ok(data[index])
      ensures -data.Length <= index < 0 ==> r == Ok(data[data.Length + index])
      ensures r.Err? <==> !(-data.Length <= index < data.Length)
      ensures r.Err? ==> r.error == IndexError
    {
      if 0 <= index < data.Length then Ok(data[index])
      else if -data.Length <= index < 0 then Ok(data[data.Length + index])
      else Err(IndexError)
    }

    /** `self[start:stop]`: a copy of the bytes between the two normalised bounds. */
    function GetSlice(start: int, stop: int): (r: seq<byte>)
      reads this, data
      ensures var a, b := Clamp(start, data.Length), Clamp(stop, data.Length);
        && |r| == (if a <= b then b - a else 0)
        && forall k :: 0 <= k < |r| ==> r[k] == data[a + k]
    {
      PySlice(data[..], start, stop)
    }

    /** `tolist()`: a copy of the bytes in order. */
    function ToList(): (r: seq<byte>)
      reads this, data
      ensures |r| == data.Length && forall i :: 0 <= i < |r| ==> r[i] == data[i]
    {
      data[..]
    }

    /** `size()`: the length less the zero bytes, which is the number of non-zero bytes. */
    function Size(): (r: nat)
      reads this, data
      ensures r == NonZeroCount(data[..])
      ensures r <= data.Length
      ensures r == 0 <==> forall i :: 0 <= i < data.Length ==> data[i] == 0
    {
      ZeroCountComplement(data[..]);
      NonZeroCountZero(data[..]);
      data.Length - ZeroCount(data[..])
    }

    /** `hexList(n)`: two lowercase digits for each of the first n bytes (`tolist()[:n]`). */
    function HexList(n: int): (r: seq<string>)
      reads this, data
      ensures 0 <= n ==> |r| == Min(n, data.Length)
      ensures n < 0 ==> |r| == Clamp(n, data.Length)
      ensures forall k :: 0 <= k < |r| ==> r[k] == ByteHex(data[k])
    {
      var shown := PySlice(data[..], 0, n);
      assert shown == data[..Clamp(n, data.Length)];
      HexListEntries(shown);
      seq(|shown|, k requires 0 <= k < |shown| => ZFill(HexDigits(shown[k]), 2))
    }

    /** `toString(encoding, start, end)`: the bytes of `[start:end]` as hex digit pairs, or decoded
        by the text codec. */
    function ToString(encoding: string, start: int, end: Option<int>, decode: Decoder): (r: Result<string>)
      reads this, data
      ensures var block := PySlice(data[..], start, if end.Some? then end.value else data.Length);
        && (encoding == "hex" ==> r == Ok(ToHex(block)))
        && (encoding != "hex" && decode(block, encoding).Some? ==> r == Ok(decode(block, encoding).value))
        && (encoding != "hex" && decode(block, encoding).None? ==> r == Err(CodecError))
        && (r.Err? ==> r.error == CodecError)
      ensures encoding == "hex" ==> r.Ok? && forall i :: 0 <= i < |r.value| ==> IsLowerHexDigit(r.value[i])
      // the hex form of an in-range span has two digits per byte, byte i at 2 * (i - start)
      ensures encoding == "hex" && end.Some? && 0 <= start <= end.value <= data.Length ==>
        |r.value| == 2 * (end.value - start) &&
        forall i :: start <= i < end.value ==> r.value[2 * (i - start)..2 * (i - start) + 2] == ByteHex(data[i])
    {
      var block := PySlice(data[..], start, if end.Some? then end.value else data.Length);
      ToHexAt(block);
      HexSpan(data[..], start, if end.Some? then end.value else data.Length);
      if encoding == "hex" then Ok(ToHex(block))
      else match decode(block, encoding)
        case Some(t) => Ok(t)
        case None => Err(CodecError)
    }

    /** `indexOf(value, offset, encoding)`: the first match of the encoded needle in
        `self[offset:]`, counted from the offset. */
    function IndexOf(value: string, offset: int, encoding: string, encode: Encoder): (r: Result<nat>)
      reads this, data
      ensures encode(value, encoding).None? ==> r == Err(CodecError)
      ensures encode(value, encoding).Some? ==>
        var block, needle := PySlice(data[..], offset, data.Length), encode(value, encoding).value;
        && (r.Ok? ==> OccursAt(block, needle, r.value) && forall k :: 0 <= k < r.value ==> !OccursAt(block, needle, k))
        && (r.Err? <==> forall k: nat :: !OccursAt(block, needle, k))
        && (r.Err? ==> r.error == ValueError)
      // for an offset inside the buffer the match starts at offset + r
      ensures 0 <= offset <= data.Length && r.Ok? ==>
        var needle := encode(value, encoding).value;
        offset + r.value + |needle| <= data.Length && data[offset + r.value..offset + r.value + |needle|] == needle
    {
      var block := PySlice(data[..], offset, data.Length);
      match encode(value, encoding)
      case None => Err(CodecError)
      case Some(needle) =>
        match Find(block, needle)
        case Some(k) =>
          assert 0 <= offset <= data.Length ==> block == data[offset..];
          Ok(k)
        case None => Err(ValueError)
    }

    /** `includes(value, offset, encoding)`: `bool(self.indexOf(...))`, with every exception read
        as False. A needle whose first match is at the offset itself counts as absent. */
    function Includes(value: string, offset: int, encoding: string, encode: Encoder): (r: bool)
      reads this, data
      ensures r <==>
                encode(value, encoding).Some? &&
                var block, needle := PySlice(data[..], offset, data.Length), encode(value, encoding).value;
                !OccursAt(block, needle, 0) && exists k: nat :: OccursAt(block, needle, k)
    {
      var found := IndexOf(value, offset, encoding, encode);
      found.Ok? && found.value != 0
    }

    /** `__repr__` and `__str__`: `<Buffer ` and the hex pairs of the first 35 bytes separated by
        spaces, then ` ... N more bytes` when N = len - 35 bytes are left out, then `>`. */
    function Repr(): (r: string)
      reads this, data
      ensures |r| >= 9 && r[..8] == "<Buffer " && r[|r| - 1] == '>'
      ensures |r| >= 9 + 3 * Min(data.Length, 35) - 1
      ensures forall i :: 0 <= i < Min(data.Length, 35) ==> r[8 + 3 * i..10 + 3 * i] == ByteHex(data[i])
      ensures forall i :: 0 <= i < Min(data.Length, 35) - 1 ==> r[10 + 3 * i] == ' '
      ensures data.Length <= 35 ==> |r| == 9 + (if data.Length == 0 then 0 else 3 * data.Length - 1)
      ensures data.Length > 35 ==> r[112..] == " ... " + Decimal(data.Length - 35) + " more bytes>"
    {
      ReprText(HexList(35), data.Length)
    }

    /** `write(val, offset, length)`: settle `val` (the `encoding` argument is not passed on, so
        text is always 'utf8') and copy `stack[i - offset]` to every index i in
        [offset, WriteEnd). Returns the buffer itself. */
    method Write(val: Value, offset: int, length: int, encoding: string, encode: Encoder) returns (r: Result<Buffer>)
      requires WriteOk(data.Length, val, offset, length, encode)
      modifies data
      ensures match Settle(val, "utf8", encode)
        case Err(e) => r == Err(e) && unchanged(data)
        case Ok(stack) =>
          r == Ok(this) &&
          var end := WriteEnd(data.Length, stack, length);
          forall i :: 0 <= i < data.Length ==>
            data[i] == if offset <= i < end then stack[i - offset] else old(data[i])
    {
      var settled := Settle(val, "utf8", encode);
      if settled.Err? {
        return Err(settled.error);
      }
      var stack := settled.value;
      var index := offset;
      var total := WriteEnd(data.Length, stack, length);
      assert WriteFits(data.Length, stack, offset, total);
      while index < total
        invariant offset <= index
        invariant offset < total ==> index <= total
        invariant offset >= total ==> index == offset
        invariant forall i :: 0 <= i < data.Length ==>
          data[i] == if offset <= i < index then stack[i - offset] else old(data[i])
      {
        assert stack[..total - offset][index - offset] == stack[index - offset];
        data[index] := stack[index - offset];
        index := index + 1;
      }
      r := Ok(this);
    }

    /** `fill(value, offset, end)`: repeat the settled value over [offset, end or len), byte i
        taking `content[(i - offset) % len(content)]`; `encoding` is ignored. An empty pattern
        raises ZeroDivisionError before anything is written. */
    method Fill(value: Value, offset: int, end: int, encoding: string, encode: Encoder) returns (r: Result<Buffer>)
      requires FillOk(data.Length, value, offset, end, encode)
      modifies data
      ensures match Settle(value, "utf8", encode)
        case Err(e) => r == Err(e) && unchanged(data)
        case Ok(content) =>
          if |content| == 0 then
            r == Err(ZeroDivisionError) && unchanged(data)
          else
            r == Ok(this) &&
            var total := FillTotal(data.Length, end);
            forall i :: 0 <= i < data.Length ==>
              data[i] == if offset <= i < total then content[(i - offset) % |content|] else old(data[i])
    {
      var total := FillTotal(data.Length, end);
      var settled := Settle(value, "utf8", encode);
      if settled.Err? {
        return Err(settled.error);
      }
      var content := settled.value;
      if |content| == 0 {
        return Err(ZeroDivisionError);
      }
      var count := total - offset;
      var pattern := FillPattern(content, count);
      FillFits(data.Length, content, offset, total, pattern);
      r := Write(SeqV(pattern), offset, total, "utf8", encode);
    }

    /** `clear(start, end)`: `fill(0, start, end)`, zeroing [start, end or len). */
    method Clear(start: int, end: int) returns (r: Buffer)
      requires 0 <= start
      requires start < FillTotal(data.Length, end) ==> FillTotal(data.Length, end) <= data.Length
      modifies data
      ensures r == this
      ensures forall i :: 0 <= i < data.Length ==>
        data[i] == if start <= i < FillTotal(data.Length, end) then 0 else old(data[i])
      // `clear()` leaves no non-zero byte
      ensures start == 0 && end == 0 ==> Size() == 0
    {
      var f := Fill(IntV(0), start, end, "utf8", NoCodec);
      r := this;
    }

    /** `copy(target, targetStart, sourceStart, sourceEnd)`: `target.write(self[sourceStart:
        sourceEnd or len(self)], targetStart)`. With no length given, the write stops at
        min(len(target), len(slice)), whatever targetStart is. Returns the target. */
    method Copy(target: Buffer, targetStart: int, sourceStart: int, sourceEnd: int) returns (r: Buffer)
      requires 0 <= targetStart
      modifies target.data
      ensures r == target
      ensures var src := old(GetSlice(sourceStart, if sourceEnd != 0 then sourceEnd else data.Length));
        forall i :: 0 <= i < target.data.Length ==>
          target.data[i] == if targetStart <= i < Min(target.data.Length, |src|) then src[i - targetStart] else old(target.data[i])
      ensures target.data != data ==> unchanged(data)
    {
      var src := GetSlice(sourceStart, if sourceEnd != 0 then sourceEnd else data.Length);
      var end := Min(target.data.Length, |src|);
      if targetStart < end {
        var part := src[..end - targetStart];
        forall j | 0 <= j < |part| ensures IsByte(part[j]) { }
      }
      var w := target.Write(SeqV(src), targetStart, 0, "utf8", NoCodec);
      r := target;
    }

    /** `Buffer.alloc(n, fill, encoding)`: `bytearray(n)`, then, for a truthy fill, `fill(fill)`
        over the whole buffer (`encoding` does not reach it). */
    static method Alloc(n: int, fill: Value, encoding: string, encode: Encoder) returns (r: Result<Buffer>)
      ensures AllocContents(n, fill, encode).Err? ==> r.Err? && r.error == AllocContents(n, fill, encode).error
      ensures AllocContents(n, fill, encode).Ok? ==>
        r.Ok? && fresh(r.value) && fresh(r.value.data) && r.value.data[..] == AllocContents(n, fill, encode).value
    {
      if n < 0 {
        return Err(ValueError);
      }
      var b := new Buffer(n);
      if Truthy(fill) {
        if !FillOk(n, fill, 0, 0, encode) {
          return Err(ValueError);
        }
        var f := b.Fill(fill, 0, 0, encoding, encode);
        if f.Err? {
          return Err(f.error);
        }
        assert b.data[..] == AllocContents(n, fill, encode).value;
      }
      r := Ok(b);
    }

    /** `Buffer.new(val, encoding, length)`: settle `val` with the encoding, allocate `length or
        len(content)` bytes and write the content from offset 0. */
    static method New(val: Value, encoding: Arg, length: Arg, encode: Encoder) returns (r: Result<Buffer>)
      ensures NewContents(val, encoding, length, encode).Err? ==> r.Err? && r.error == NewContents(val, encoding, length, encode).error
      ensures NewContents(val, encoding, length, encode).Ok? ==>
        r.Ok? && fresh(r.value) && fresh(r.value.data) && r.value.data[..] == NewContents(val, encoding, length, encode).value
    {
      var (enc, len) := NewArgs(encoding, length);
      var settled := Settle(val, enc, encode);
      if settled.Err? {
        return Err(settled.error);
      }
      var content := settled.value;
      var sized := NewLength(content, len);
      if sized.Err? {
        return Err(sized.error);
      }
      var n := sized.value;
      var made := Alloc(n, Other(false), "utf8", encode);
      if made.Err? {
        return Err(made.error);
      }
      var buf := made.value;
      if !AllBytes(content[..Min(n, |content|)]) {
        return Err(ValueError);
      }
      if n > |content| {
        return Err(IndexError);
      }
      assert content[..n - 0] == content[..Min(n, |content|)];
      var w := buf.Write(SeqV(content), 0, n, enc, encode);
      assert buf.data[..] == content[..n];
      r := Ok(buf);
    }
  }

  /** The hex form of `s[start:end]` has byte i of s at characters 2 * (i - start) and after. */
  lemma HexSpan(s: seq<byte>, start: int, end: int)
    ensures 0 <= start <= end <= |s| ==>
      && |ToHex(s[start..end])| == 2 * (end - start)
      && forall i :: start <= i < end ==> ToHex(s[start..end])[2 * (i - start)..2 * (i - start) + 2] == ByteHex(s[i])
  {
    if 0 <= start <= end <= |s| {
      var block := s[start..end];
      ToHexAt(block);
      forall i | start <= i < end
        ensures ToHex(block)[2 * (i - start)..2 * (i - start) + 2] == ByteHex(s[i])
      {
        assert block[i - start] == s[i];
      }
    }
  }

  /** `'<Buffer %s%s>' % (' '.join(shown), rest)` for a buffer of n bytes whose first
      min(n, 35) bytes have the two-character renderings `shown`. */
  function ReprText(shown: seq<string>, n: nat): (r: string)
    requires |shown| == Min(n, 35) && forall k :: 0 <= k < |shown| ==> |shown[k]| == 2
    ensures |r| >= 9 && r[..8] == "<Buffer " && r[|r| - 1] == '>'
    ensures |r| >= 9 + 3 * |shown| - 1
    ensures forall i :: 0 <= i < |shown| ==> r[8 + 3 * i..10 + 3 * i] == shown[i]
    ensures forall i :: 0 <= i < |shown| - 1 ==> r[10 + 3 * i] == ' '
    ensures n <= 35 ==> |r| == 9 + (if n == 0 then 0 else 3 * n - 1)
    ensures n > 35 ==> r[112..] == " ... " + Decimal(n - 35) + " more bytes>"
  {
    var rest := if n <= 35 then "" else " ... " + Decimal(n - 35) + " more bytes";
    var r := "<Buffer " + Join(shown, " ") + rest + ">";
    ReprPairs(shown, rest, r);
    ReprEnds(n, shown, rest, r);
    r
  }

  /** The frame of `__repr__`'s string r for a buffer of n bytes: its length, `<Buffer ` in front,
      `>` at the end and, after 35 shown bytes, the count of the rest. */
  lemma ReprEnds(n: nat, shown: seq<string>, rest: string, r: string)
    requires |shown| == Min(n, 35) && forall k :: 0 <= k < |shown| ==> |shown[k]| == 2
    requires rest == if n <= 35 then "" else " ... " + Decimal(n - 35) + " more bytes"
    requires r == "<Buffer " + Join(shown, " ") + rest + ">"
    ensures |r| >= 9 && r[..8] == "<Buffer " && r[|r| - 1] == '>'
    ensures |r| >= 9 + 3 * Min(n, 35) - 1
    ensures n <= 35 ==> |r| == 9 + (if n == 0 then 0 else 3 * n - 1)
    ensures n > 35 ==> r[112..] == " ... " + Decimal(n - 35) + " more bytes>"
  {
    var head, tail := "<Buffer ", rest + ">";
    assert |head| == 8 && tail[|tail| - 1] == '>';
    assert r == head + Join(shown, " ") + tail;
    ReprShape(head, shown, tail, r);
    assert r[|r| - 1] == r[|r| - |tail|..][|tail| - 1];
    if n > 35 {
      assert |r| - |tail| == 112;
    }
  }

  /** The items of `__repr__`'s string r: item i at 8 + 3i, a space after each but the last. */
  lemma ReprPairs(shown: seq<string>, rest: string, r: string)
    requires forall k :: 0 <= k < |shown| ==> |shown[k]| == 2
    requires r == "<Buffer " + Join(shown, " ") + rest + ">"
    ensures |r| == 9 + (if |shown| == 0 then 0 else 3 * |shown| - 1) + |rest|
    ensures forall i :: 0 <= i < |shown| ==> r[8 + 3 * i..10 + 3 * i] == shown[i]
    ensures forall i :: 0 <= i < |shown| - 1 ==> r[10 + 3 * i] == ' '
  {
    var head, tail := "<Buffer ", rest + ">";
    assert |head| == 8;
    assert r == head + Join(shown, " ") + tail;
    ReprShape(head, shown, tail, r);
    forall i | 0 <= i < |shown| ensures r[8 + 3 * i..10 + 3 * i] == shown[i] {
      assert r[|head| + 3 * i..|head| + 3 * i + 2] == shown[i];
    }
    forall i | 0 <= i < |shown| - 1 ensures r[10 + 3 * i] == ' ' {
      assert r[|head| + 3 * i + 2] == ' ';
    }
  }

  /** The layout of `head + ' '.join(xs) + tail` for two-character items xs. */
  lemma ReprShape(head: string, xs: seq<string>, tail: string, r: string)
    requires forall k :: 0 <= k < |xs| ==> |xs[k]| == 2
    requires r == head + Join(xs, " ") + tail
    ensures |r| == |head| + (if |xs| == 0 then 0 else 3 * |xs| - 1) + |tail|
    ensures r[..|head|] == head && r[|r| - |tail|..] == tail
    ensures forall k :: 0 <= k < |xs| ==> r[|head| + 3 * k..|head| + 3 * k + 2] == xs[k]
    ensures forall k :: 0 <= k < |xs| - 1 ==> r[|head| + 3 * k + 2] == ' '
  {
    JoinPairs(xs);
    var pairs := Join(xs, " ");
    forall k | 0 <= k < |xs| ensures r[|head| + 3 * k..|head| + 3 * k + 2] == xs[k] {
      Middle(head, pairs, tail, 3 * k, 3 * k + 2);
    }
    forall k | 0 <= k < |xs| - 1 ensures r[|head| + 3 * k + 2] == ' ' {
      Middle(head, pairs, tail, 3 * k + 2, 3 * k + 3);
      assert r[|head| + 3 * k + 2] == r[|head| + 3 * k + 2..|head| + 3 * k + 3][0];
    }
  }

  /** A slice of the middle part of a concatenation is that slice of the part. */
  lemma Middle<T>(a: seq<T>, b: seq<T>, c: seq<T>, i: int, j: int)
    requires 0 <= i <= j <= |b|
    ensures (a + b + c)[|a| + i..|a| + j] == b[i..j]
  {
    assert forall m :: 0 <= m < j - i ==> (a + b + c)[|a| + i..|a| + j][m] == b[i..j][m];
  }

  lemma HexListEntries(s: seq<byte>)
    ensures forall k :: 0 <= k < |s| ==> ZFill(HexDigits(s[k]), 2) == ByteHex(s[k])
  {
    forall k | 0 <= k < |s| ensures ZFill(HexDigits(s[k]), 2) == ByteHex(s[k]) { HexListEntry(s[k]); }
  }

  /** The pattern `fill` builds satisfies `write`'s demands on the span [offset, total). */
  lemma FillFits(size: nat, content: seq<int>, offset: int, total: int, pattern: seq<int>)
    requires |content| > 0 && pattern == FillPattern(content, total - offset)
    requires 0 <= offset && (offset < total ==> total <= size && AllBytes(content[..Min(|content|, total - offset)]))
    requires total == 0 ==> size == 0
    ensures WriteEnd(size, pattern, total) == total
    ensures WriteFits(size, pattern, offset, total)
  {
    if offset < total {
      var count := total - offset;
      var part := pattern[..count];
      forall j | 0 <= j < count ensures IsByte(part[j]) {
        var m := j % |content|;
        assert m < Min(|content|, count) by { if j < |content| { ModSmall(j, |content|); } }
        assert content[..Min(|content|, count)][m] == content[m];
      }
    }
  }

  /** `toString('hex')` is `''.join(hexList(len))`. */
  lemma HexStringIsJoinedHexList(b: Buffer, decode: Decoder)
    ensures b.ToString("hex", 0, None, decode) == Ok(Join(b.HexList(b.data.Length), ""))
  {
    var xs := b.HexList(b.data.Length);
    JoinEmpty(xs);
    ConcatPairs(b.data[..], xs);
  }

  lemma {:induction false} ConcatPairs(s: seq<byte>, xs: seq<string>)
    requires |xs| == |s| && forall k :: 0 <= k < |s| ==> xs[k] == ByteHex(s[k])
    ensures Concat(xs) == ToHex(s)
    decreases |s|
  {
    if s != [] {
      ConcatPairs(s[1..], xs[1..]);
    }
  }

  /** End to end: a buffer holding what `Buffer.new(h, 'hex')` writes renders as h in lowercase. */
  lemma NewHexToString(h: string, encode: Encoder, b: Buffer, decode: Decoder)
    requires IsHexText(h)
    requires NewContents(StrV(h), StrArg("hex"), IntArg(0), encode) == Ok(b.data[..])
    ensures b.ToString("hex", 0, None, decode) == Ok(Lower(h))
  {
    NewHexRoundTrip(h, encode);
  }
}
