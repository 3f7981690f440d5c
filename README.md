# node_buffer in Dafny

A verified model of `node_buffer/__init__.py`, a Python rewrite of the Node.js `Buffer`. The
class `Buffer` wraps a single `bytearray`. Its length is fixed when `alloc` creates it. After
that the bytes change only through the loop in `write`, and `fill`, `clear`, `copy`, `alloc` and
`new` all go through that loop. Everything else reads the bytes: `size`, `tolist`, `hexList`,
`toString`, `indexOf`, `includes`, `__repr__`.

Layout, one module per concern:

- `base.dfy` (`Base`): the `byte` type, `Option`, `Result`, the Python exceptions as `Error`,
  Python slicing (`Clamp`, `PySlice`), and the zero and non-zero counts behind `size`.
- `hex.dfy` (`Hex`): Base16 as in section 8 of RFC 4648. Output is lowercase (`bytes.hex()`,
  `hex()` plus `zfill`). Input is `bytes.fromhex`, which reads either case and skips ASCII
  whitespace between digit pairs.
- `format.dfy` (`Format`): `str.join` and decimal rendering, which `__repr__` uses.
- `search.dfy` (`Search`): `bytearray.index`, the first occurrence of a needle.
- `values.dfy` (`Values`): the shapes of value `__settle` accepts, Python truthiness, and
  `__settle` itself.
- `pattern.dfy` (`Pattern`): the repeated pattern `fill` builds, `content * ceil(count / len)`
  with its one-element trim.
- `buffer.dfy` (`NodeBuffer`): the class `Buffer`.
  - The stored `bytearray` is an `array<byte>`.
  - `Write`, `Fill`, `Clear` and `Copy` are methods with `modifies` frames. `Write` holds the one
    loop, and its invariants give the new contents byte by byte.
  - `Alloc` and `New` are static methods, specified by the pure functions `AllocContents` and
    `NewContents`.
  - The read-only operations are functions with `reads` clauses.

A Python value is a `Value`:

- `BufV(contents)` is a Buffer argument, given by the bytes it holds when it is settled.
- `IntV` is an int, `StrV` a str.
- `SeqV(items)` is a list, tuple, `bytes` or `bytearray`.
- `Other(truthy)` is any other object, with its Python truth value.

The text codecs (`bytes(text, encoding)`, `bytes.decode(encoding)`) are parameters of type
`Encoder` and `Decoder`. They return `None` where Python raises.

Quirks of the code that the model keeps:

- `x or default` turns an explicit 0 into the default. This holds for `end` in `fill`, `length`
  in `write` and `new`, and `sourceEnd` in `copy`. A length of 0 is therefore the same as none.
- Without a length, `write` stops at `min(len(self), len(stack))`, whatever the offset is (line 73). So
  `copy` to a non-zero `targetStart` writes fewer bytes than the slice holds.
- `fill` and `write` ignore their `encoding` argument: text is always settled as `'utf8'`.
- `includes` is `bool(indexOf(...))`, so a match at the offset itself (relative index 0) reads as
  absent.
- `indexOf` returns an index counted from `offset`, not from the start of the buffer.
- `new` takes an int passed as `encoding` as the length. The encoding then becomes the old
  `length` if that was a str, and `'utf8'` otherwise.
- `__settle` keeps an int as it is (`[v]`, lines 104-105). A value outside 0..255 fails only when
  it is written into the `bytearray`, with ValueError.
- `indexOf` needs a str needle, because `bytes(value, encoding)` (line 57) refuses bytes, so the
  needle is a `string`.
- The module defines no slice, concat, `+`, lastIndexOf, todict, isBuffer or `__setitem__`.

## Model

| member | source | states |
|---|---|---|
| Values.Settle | node_buffer/__init__.py:100-112 | Dispatch by shape. TypeError exactly for an unsupported shape. A Buffer gives its bytes. A list/tuple/bytes passes through. An int `v` gives `[v]` unchanged. Text with encoding 'hex' gives the bytes of `bytes.fromhex`, or ValueError when that refuses it; even-length hex digits always decode and render back as their lowercase form. Other text gives exactly the codec's bytes, or a codec error when it refuses. Results from a Buffer or a str are bytes. |
| Values.Truthy | node_buffer/__init__.py:86 | `if fill:`. The falsy values are exactly 0, the empty str, the empty list/bytes, a Buffer whose `__len__` is 0, and a false object. |
| Hex.FromHex | node_buffer/__init__.py:107 | `bytes.fromhex` (whitespace before a pair, two digits of either case, ValueError otherwise); a result has at most half as many bytes as the text has characters |
| Hex.HexTextRoundTrip | node_buffer/__init__.py:107 | even-length hex text always decodes, to half as many bytes, and `hex()` of them is the text in lowercase |
| Hex.FromHexToHex | node_buffer/__init__.py:47 | `fromhex(b.hex()) == b` for every byte sequence |
| Hex.OddHexTextFails | node_buffer/__init__.py:107 | an odd number of hex digits is refused |
| Hex.ToHex | node_buffer/__init__.py:47 | `bytes.hex()` is twice as long as its input |
| Hex.ToHexAt | node_buffer/__init__.py:47 | byte k is rendered at characters 2k and 2k+1 as its two digits, and every character is a lowercase hex digit |
| Hex.ByteHex | node_buffer/__init__.py:43 | the two lowercase digits of a byte read back as that byte |
| Hex.HexListEntry | node_buffer/__init__.py:43 | `hex(v).split('x')[1].zfill(2)` equals the pair `bytes.hex()` writes for v |
| Hex.DigitValue | node_buffer/__init__.py:107 | a digit of either case has a value below 16 and renders back lowercase |
| Base.Clamp | node_buffer/__init__.py:46 | a slice bound counts from the end when negative and is clipped to [0, len], so a bound past the end is len |
| Base.PySlice | node_buffer/__init__.py:56 | `s[start:stop]` is the plain subsequence for in-range bounds, empty when 0 ≤ stop ≤ start, and never longer than s |
| Base.ZeroCountComplement | node_buffer/__init__.py:32-33 | `len - count(0)` equals the independently counted number of non-zero bytes |
| Base.NonZeroCountZero | node_buffer/__init__.py:32-33 | the non-zero count is at most the length, and is 0 exactly when every byte is 0 |
| Pattern.Repeat | node_buffer/__init__.py:65 | `s * k` has `len(s) * k` elements, none for k ≤ 0 |
| Pattern.RepeatAt | node_buffer/__init__.py:65 | element j of `s * k` is `s[j % len(s)]` |
| Pattern.CeilDiv | node_buffer/__init__.py:65 | `math.ceil(a / b)`: the least q with a ≤ b·q |
| Pattern.FillPattern | node_buffer/__init__.py:63-65 | the pattern is never shorter than the span, even after its one-element trim. Its length is exactly the span when the span is a whole number of copies. It is empty for a span of 0 or less. Element j is `content[j % len(content)]`. |
| Search.FindFrom | node_buffer/__init__.py:57 | the first occurrence at or after a position, or None when there is none after it |
| Search.Find | node_buffer/__init__.py:57 | `bytearray.index`: an occurrence with none before it, and None exactly when the needle occurs nowhere |
| Format.JoinPairs | node_buffer/__init__.py:21 | `' '.join` of two-character items has length 3n−1, item k at 3k and a space after every item but the last |
| Format.JoinEmpty | node_buffer/__init__.py:42-47 | `''.join(xs)` is the concatenation of xs in order, which ties `hexList` to `toString('hex')` |
| Format.Decimal | node_buffer/__init__.py:21 | `'%s' % n` is non-empty, all digits, without a leading zero |
| Format.DecimalRoundTrip | node_buffer/__init__.py:21 | the decimal rendering of n reads back as n |
| NodeBuffer.WriteEnd | node_buffer/__init__.py:73 | `length or min(len(self), len(stack))`: a non-zero length is the end; otherwise the end is the buffer's or the stack's length, whichever is smaller, with no offset in it |
| NodeBuffer.NewLength | node_buffer/__init__.py:96 | `length or len(content)`: a non-zero int length is the result, 0 or the empty str gives the content's length, and a non-empty str length is exactly the error case (TypeError in `bytearray`) |
| NodeBuffer.NewContents | node_buffer/__init__.py:90-98 | what `new` ends up holding: the first n values of the content settled with the (swapped) encoding, n being `length or len(content)`. It returns the settle or length error as it is. A negative n raises ValueError. A value among the first n that is not a byte raises ValueError. Otherwise n past the content raises IndexError. It succeeds exactly when 0 ≤ n ≤ len(content) and those n values are bytes. |
| NodeBuffer.NewDefaultLength | node_buffer/__init__.py:95-98 | with length 0 the buffer holds exactly the settled content, so its length is `len(settle(val, encoding))` |
| NodeBuffer.NewExplicitLength | node_buffer/__init__.py:96-98 | a smaller explicit length truncates the content; a larger one raises IndexError; a negative one raises ValueError |
| NodeBuffer.NewNonByte | node_buffer/__init__.py:75 | `new([300])` and `new(300)` raise ValueError when the write stores 300 into the `bytearray` |
| NodeBuffer.NewIntEncodingIsLength | node_buffer/__init__.py:92-94 | `new(v, n, x)` behaves as `new(v, x if x is a str else 'utf8', n)` |
| NodeBuffer.NewHexRoundTrip | node_buffer/__init__.py:95-98 | `new(h, 'hex')` succeeds for even-length hex text h, and the `hex()` of its bytes is h in lowercase |
| NodeBuffer.NewHexToString | node_buffer/__init__.py:45-47 | a buffer holding what `new(h, 'hex')` writes gives `toString('hex') == h.lower()` |
| NodeBuffer.AllocContents | node_buffer/__init__.py:82-88 | `alloc(n, fill)`. A result has length n. A negative n raises ValueError. Without a truthy fill the result is n zero bytes, so `size()` is 0. With one, alloc succeeds exactly when the fill settles to a non-empty pattern whose values used are bytes, and then byte i is `content[i % len(content)]`. Otherwise it raises the settle error, ZeroDivisionError for an empty pattern, or ValueError for a value that is not a byte. |
| NodeBuffer.AllocFilledExample | node_buffer/__init__.py:82-88 | `alloc(3, 1)` holds `[1, 1, 1]` |
| NodeBuffer.FillFits | node_buffer/__init__.py:63-65 | the pattern `fill` passes to `write` (with `length = total`) ends the write at `total` and never runs past the pattern, so the trim causes no short write and no IndexError |
| NodeBuffer.HexStringIsJoinedHexList | node_buffer/__init__.py:42-47 | `toString('hex') == ''.join(hexList(len(self)))` |
| NodeBuffer.ReprText | node_buffer/__init__.py:21 | the string `'<Buffer %s%s>'` builds from the shown pairs and the byte count: `<Buffer ` in front and `>` at the end; pair k at 8+3k with a space after each but the last; exactly 3n−1 pair characters when n ≤ 35; otherwise ` ... N more bytes` with N = n − 35 from position 112 |
| NodeBuffer.ReprShape | node_buffer/__init__.py:21 | the layout of `head + ' '.join(xs) + tail`: total length, head in front, tail at the end, item k at `len(head)+3k`, a space after every item but the last |
| NodeBuffer.Buffer.constructor | node_buffer/__init__.py:85 | `bytearray(n)`: a fresh array of n zero bytes |
| NodeBuffer.Buffer.Length | node_buffer/__init__.py:26-27 | `len(self)` (also the `length` property, lines 35-37) is the length of `tolist()` |
| NodeBuffer.Buffer.Get | node_buffer/__init__.py:29-30 | `self[i]` is byte i, counting from the end for a negative i, and IndexError exactly outside [−len, len) |
| NodeBuffer.Buffer.GetSlice | node_buffer/__init__.py:29-30 | `self[start:stop]` (used by `copy`, line 68): the bytes from the normalised start up to the normalised stop, none when stop ≤ start |
| NodeBuffer.Buffer.ToList | node_buffer/__init__.py:39-40 | `tolist()` has the buffer's length and its bytes in order |
| NodeBuffer.Buffer.Size | node_buffer/__init__.py:32-33 | `size()` is the number of non-zero bytes, at most the length, and 0 exactly when every byte is 0 |
| NodeBuffer.Buffer.HexList | node_buffer/__init__.py:42-43 | `hexList(n)` has `min(n, len)` entries for n ≥ 0 (the Python slice bound otherwise), entry k being byte k's two lowercase digits |
| NodeBuffer.Buffer.ToString | node_buffer/__init__.py:45-47 | the 'hex' encoding gives `hex()` of `[start:end]`: all lowercase digits, 2·(end−start) of them for an in-range span, byte i at 2·(i−start). Other encodings give exactly the decoder's text, or a codec error when it refuses. |
| NodeBuffer.Buffer.IndexOf | node_buffer/__init__.py:55-57 | the encoded needle occurs at r in `self[offset:]` with no earlier match, so it starts at absolute offset + r. ValueError exactly when it occurs nowhere. A codec error when the text cannot be encoded. |
| NodeBuffer.Buffer.Includes | node_buffer/__init__.py:49-53 | true exactly when the needle encodes, occurs in `self[offset:]`, and does not occur at relative index 0 |
| NodeBuffer.Buffer.Repr | node_buffer/__init__.py:19-24 | `<Buffer ` then the first min(len, 35) bytes as lowercase pairs separated by spaces. Up to 35 bytes, nothing follows but `>`. Beyond that, ` ... N more bytes>` with N = len − 35. |
| NodeBuffer.Buffer.Write | node_buffer/__init__.py:70-77 | a settle error changes nothing and is returned. Otherwise it returns the buffer itself; every i in [offset, WriteEnd) becomes `stack[i − offset]` and every other byte is unchanged. |
| NodeBuffer.Buffer.Fill | node_buffer/__init__.py:59-65 | a settle error or an empty pattern (ZeroDivisionError) changes nothing. Otherwise every i in [offset, end or len) becomes `content[(i − offset) % len(content)]` and every other byte is unchanged. |
| NodeBuffer.Buffer.Clear | node_buffer/__init__.py:79-80 | [start, end or len) becomes 0 and the rest is unchanged; `clear()` leaves `size() == 0` |
| NodeBuffer.Buffer.Copy | node_buffer/__init__.py:67-68 | returns the target. Target index i in [targetStart, min(len(target), len(slice))) becomes `slice[i − targetStart]`, where slice is the source's `GetSlice(sourceStart, sourceEnd or len)` taken before the write. Every other target byte is unchanged, and the source is unchanged unless it is the target. |
| NodeBuffer.Buffer.Alloc | node_buffer/__init__.py:82-88 | a fresh buffer over a fresh array holding `AllocContents`, or its error |
| NodeBuffer.Buffer.New | node_buffer/__init__.py:90-98 | a fresh buffer over a fresh array holding `NewContents`, or its error |

## Left out

- Text codecs: UTF-8 (RFC 3629) and the other encodings are not implemented. `bytes(text, encoding)` and `bytes.decode(encoding)` are the `Encoder` and `Decoder` parameters. Their exceptions (UnicodeError, LookupError) are the single `CodecError`.
- NodeBuffer.Buffer.Write: the partial write that happens before an IndexError or ValueError in the loop is not modelled. `WriteOk` requires that the loop raises nothing: the offset is at least 0, the span lies inside the buffer and the stack, and the values written are bytes.
- NodeBuffer.Buffer.Fill: for the same reason, `FillOk` requires that the span fits the buffer, the pattern values used are bytes, and the offset is at least 0.
- NodeBuffer.Buffer.Clear: requires the span to fit the buffer and `start` to be at least 0, since it is `fill` with a zero pattern.
- NodeBuffer.Buffer.Copy: requires `targetStart` to be at least 0. A negative offset makes Python's `bytearray` assignment count from the end.
- Negative offsets in `write` and `fill` are excluded for the same reason. Negative and out-of-range slice bounds in `toString`, `indexOf`, `hexList` and `copy`'s source range are modelled exactly, by `PySlice`.
- `math.ceil(count / len(content))` divides in floating point. The model uses exact integer ceiling division, which differs only for counts beyond 2^53.
- Python values of other kinds: floats, dicts and other objects are `Other` (a TypeError in `__settle`). A `bool` is an int in Python (`isinstance(True, int)`), so it is `IntV(0)` or `IntV(1)`: `alloc(3, True)` holds `[1, 1, 1]`. A list is modelled as a sequence of ints only; lists holding other values are not modelled.
- The exception classes are collapsed into `Error`, and the bare `except:` in `includes` catches every error `IndexOf` can return.
- A Buffer passed as a value is read as a snapshot of its bytes (`BufV`). `tolist()` takes that copy before any write, so no aliasing is lost.
- setup.py: packaging metadata only, not part of this model.
