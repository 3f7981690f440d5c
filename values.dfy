/** The shapes of value the buffer accepts, and `__settle`, which turns each into a list of
    integers (node_buffer/__init__.py:101-112). */
module Values {
  import opened Base
  import opened Hex

  /** A Python value by its shape. A Buffer argument stands for the bytes it holds when it is
      settled; `Other` is any other object, with its Python truth value. */
  datatype Value =
    | BufV(contents: seq<byte>)
    | IntV(i: int)
    | StrV(text: string)
    | SeqV(items: seq<int>)  // list, tuple, bytes or bytearray
    | Other(truthy: bool)

  /** Python's codec machinery, `bytes(text, encoding)`: None when it raises. */
  type Encoder = (string, string) -> Option<seq<byte>>

  /** `bytes.decode(encoding)`: None when it raises. */
  type Decoder = (seq<byte>, string) -> Option<string>

  /** An encoder for callers whose values never are text. */
  const NoCodec: Encoder := (text: string, encoding: string) => None

  /** `bool(v)`: a Buffer is false when its `__len__` is 0. */
  function Truthy(v: Value): (r: bool)
    // the falsy values: zero, the empty str, sequence and Buffer, and a false object
    ensures !r <==> v == IntV(0) || v == StrV("") || v == SeqV([]) || v == BufV([]) || v == Other(false)
  {
    match v
    case BufV(c) => |c| != 0
    case IntV(i) => i != 0
    case StrV(t) => |t| != 0
    case SeqV(s) => |s| != 0
    case Other(t) => t
  }

  /** `Buffer.__settle(val, encoding)`. */
  function Settle(v: Value, encoding: string, encode: Encoder): (r: Result<seq<int>>)
    // the one TypeError is the unsupported shape
    ensures r == Err(TypeError) <==> v.Other?
    // a Buffer gives its bytes, a sequence passes through, an int is one element as it is
    ensures v.BufV? ==> r == Ok(v.contents)
    ensures v.SeqV? ==> r == Ok(v.items)
    ensures v.IntV? ==> r == Ok([v.i])
    // hex text decodes, and renders back as its own lowercase form
    ensures v.StrV? && encoding == "hex" && IsHexText(v.text) ==>
      FromHex(v.text).Some? && r == Ok(FromHex(v.text).value) && ToHex(FromHex(v.text).value) == Lower(v.text)
    ensures v.StrV? && encoding == "hex" ==>
              && (FromHex(v.text).Some? ==> r == Ok(FromHex(v.text).value))
              && (FromHex(v.text).None? ==> r == Err(ValueError))
    // other text is what the codec makes of it, whose output is bytes
    ensures v.StrV? && encoding != "hex" ==>
              && (encode(v.text, encoding).Some? ==> r == Ok(encode(v.text, encoding).value))
              && (encode(v.text, encoding).None? ==> r == Err(CodecError))
    ensures r.Ok? && (v.StrV? || v.BufV?) ==> AllBytes(r.value)
  {
    match v
    case BufV(c) => Ok(c)
    case IntV(i) => Ok([i])
    case StrV(t) =>
      if encoding == "hex" then
        HexTextLemma(t);
        (match FromHex(t)
         case Some(b) => Ok(b)
         case None => Err(ValueError))
      else
        (match encode(t, encoding)
         case Some(b) => Ok(b)
         case None => Err(CodecError))
    case SeqV(s) => Ok(s)
    case Other(_) => Err(TypeError)
  }

  lemma HexTextLemma(t: string)
    ensures IsHexText(t) ==> FromHex(t).Some? && ToHex(FromHex(t).value) == Lower(t)
  {
    if IsHexText(t) { HexTextRoundTrip(t); }
  }
}
