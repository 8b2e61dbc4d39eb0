# s2c: splitting a string into one-byte strings

This project models `s2c`, the native helper of the protr R package that turns
a string into a character vector of single characters. It reads the first
element of the character vector it is given and takes that element's
NUL-terminated C buffer. It measures the buffer with `strlen` and allocates a
character vector of that length. For each index `i` it puts byte `i` into a
two-byte scratch buffer `mot` = {byte, NUL}, calls `mkChar(mot)` and stores the
new string in slot `i`.

All of it lives in module `Util` (`util.dfy`):

- bytes are the newtype `Util.byte`, a string payload is `seq<byte>`, and the
  input character vector is a `seq<seq<byte>>` with at least one element;
- `Strlen` and `CString` model `strlen` and the C view of a buffer. A buffer
  that holds no 0 byte is read as if its terminator came right after its last
  byte;
- `MkChar` models `mkChar` on a NUL-terminated buffer: it copies the bytes
  before the first NUL;
- `Chars` and `Concat` are the reference definitions: split into one-byte
  strings, and join strings back together;
- `Split` is what `s2c` returns, as a pure function;
- `S2C` is the C loop itself. It allocates an `array` (every slot starts as
  the empty string, as a fresh R character vector does), keeps `mot` as a
  two-byte `array` whose second byte stays NUL, and fills the slots in a `for`
  loop. It is proved equal to `Split`.

## Model

| member | source | states |
|---|---|---|
| Util.Strlen | src/util.c:23 | the length is the number of bytes before the first NUL: every byte before it is non-zero and the byte at it, if any, is 0 |
| Util.CStringOfTerminated | src/util.c:21-23 | the C string of a buffer is its NUL-free prefix; a NUL-free string followed by a terminator and any bytes reads back as that string |
| Util.MkCharOfPair | src/util.c:28-29 | `mkChar` on the buffer {b, NUL} gives the one-byte string [b] exactly when b is not NUL, and the empty string otherwise |
| Util.CharsAt | src/util.c:27-30 | the reference split has one slot per byte, and slot k is the one-byte string of byte k |
| Util.ConcatChars | src/util.c:27-30 | joining the one-byte strings of a string gives the string back |
| Util.CharsConcat | src/util.c:27-30 | a list of one-byte strings is the split of its join (the other direction of the round trip) |
| Util.S2C | src/util.c:14-34 | returns a newly allocated array whose contents are exactly `Split` of the input vector |
| Util.SplitLength | src/util.c:21-25 | the result has `strlen` of the first element many slots, never more than that element's length |
| Util.SplitAt | src/util.c:27-29 | slot i holds exactly byte i of the first element, so order and repeated bytes are kept; every slot has length 1 and a non-NUL byte |
| Util.SplitRoundTrip | src/util.c:23-30 | joining the result gives the first element up to its first NUL, and the whole element when it holds no NUL |
| Util.SplitEmpty | src/util.c:23-27 | the result is empty exactly when the first element is empty or starts with NUL |
| Util.SplitFirstOnly | src/util.c:21 | two input vectors give the same result exactly when the C strings of their first elements agree, whatever the other elements are |

## Left out

- The R C API is modelled by plain sequences: `SEXP`, `STRING_ELT`, `CHAR`, `NEW_CHARACTER`, `SET_STRING_ELT`. `mkChar`'s string cache and encoding flags are not modelled.
- `PROTECT`/`UNPROTECT` (src/util.c:25, 32) is garbage-collector bookkeeping with no functional content.
- An empty input vector or an argument that is not a character vector is left to R's type system. It appears as the precondition `|v| >= 1`.
- Util.S2C: `lseq` is a C `int` holding the `size_t` from `strlen`. The model uses unbounded integers because R strings are shorter than 2^31 bytes, so the conversion never wraps.
- Util.S2C: "each slot is written exactly once" is not a postcondition. The loop invariant shows it: slots at and after `i` still hold the initial empty string, and each pass writes only slot `i`.
- The input is a `seq`, a value, so it cannot be written; the model does not capture the aliasing of R's shared string buffers.
- Headers that are included but unused (`stdio.h`, `ctype.h`, `math.h`) contribute nothing. The code is strictly byte-wise, so encodings and Unicode play no part.
