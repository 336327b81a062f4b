/** The bounded buffer builder of src/common.c, on which every printer rests. */
module Common {
  import opened Bytes

  const NEWLINE: byte := 0x0A
  const MAX_USERNAME_LEN := 64
  const MAX_MESSAGE_LEN := 1024

  /** `message_t`; both texts are NUL-free. */
  datatype Message = Message(timestamp: int, username: seq<byte>, content: seq<byte>)

  /** What a buffer of `size` bytes holds after appending: as much as fits
      before its terminating NUL, and nothing more once it is full. */
  function Fill(before: seq<byte>, data: seq<byte>, size: nat): seq<byte> {
    if size == 0 || |before| >= size - 1 then before else Clip(before + data, size - 1)
  }

  /** Appending piece by piece is appending the whole. */
  lemma FillTwice(before: seq<byte>, a: seq<byte>, b: seq<byte>, size: nat)
    ensures Fill(Fill(before, a, size), b, size) == Fill(before, a + b, size)
  {
    if size > 0 && |before| < size - 1 {
      if |before| + |a| >= size - 1 {
        assert Clip(before + (a + b), size - 1) == Clip(before + a, size - 1);
      } else {
        Assoc(before, a, b);
        assert Clip(before + a, size - 1) == before + a;
      }
    }
  }

  /** A buffer with room takes everything that leaves a byte for the NUL, and no less. */
  lemma FillIsLongest(before: seq<byte>, data: seq<byte>, size: nat)
    requires |before| < size
    ensures var r := Fill(before, data, size);
      before <= r <= before + data && |r| == Min(|before| + |data|, size - 1)
  {
  }

  /** A full buffer stays as it is. */
  lemma FullStays(before: seq<byte>, data: seq<byte>, size: nat)
    ensures |before| >= size - 1 ==> Fill(before, data, size) == before
  {
  }

  /** `buffer_append_bytes`; `buffer_appendf` with a formatted text does the same. */
  method AppendBytes(buffer: array<byte>, pos: nat, data: seq<byte>) returns (end: nat)
    requires pos <= buffer.Length
    modifies buffer
    ensures end <= buffer.Length && buffer[..end] == Fill(old(buffer[..pos]), data, buffer.Length)
    ensures old(pos < buffer.Length && buffer[pos] == 0) ==> end < buffer.Length && buffer[end] == 0
  {
    var size := buffer.Length;
    if |data| == 0 || size == 0 || pos >= size - 1 {
      return pos;
    }
    var available := (size - 1) - pos;
    var toCopy := if |data| < available then |data| else available;
    ghost var before := buffer[..pos];
    for i := 0 to toCopy
      invariant buffer[..pos + i] == before + data[..i]
    {
      buffer[pos + i] := data[i];
    }
    end := pos + toCopy;
    buffer[end] := 0;
    assert buffer[..end] == before + data[..toCopy];
    assert Clip(before + data, size - 1) == before + data[..toCopy];
  }
}
