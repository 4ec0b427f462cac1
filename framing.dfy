/** How one received chunk is framed: the receive loop NUL-terminates the
    chunk in its buffer and looks for the first newline with `strchr`, so
    only the bytes before the first zero byte are searched. */
module Framing {
  /** Size of the stack buffers `buffer` and `sendbuf`. */
  const BUFFER_SIZE: nat := 1024
  /** `recv` is asked for one byte less than the buffer holds, leaving room for the terminator. */
  const RECV_LIMIT: nat := BUFFER_SIZE - 1
  const NUL: bv8 := 0
  const NEWLINE: bv8 := 10

  datatype Option<T> = None | Some(value: T)

  function Min(a: nat, b: nat): nat {
    if a < b then a else b
  }

  /** The bytes of `s` a C string function sees: everything before the first zero byte. */
  function Visible(s: seq<bv8>): seq<bv8>
  {
    if s == [] || s[0] == NUL then [] else [s[0]] + Visible(s[1..])
  }

  /** The visible bytes are the longest prefix without a zero byte. */
  lemma {:induction false} VisibleIsPrefix(s: seq<bv8>)
    ensures Visible(s) <= s
    ensures NUL !in Visible(s)
    ensures |Visible(s)| < |s| ==> s[|Visible(s)|] == NUL
  {
    if s != [] && s[0] != NUL {
      VisibleIsPrefix(s[1..]);
    }
  }

  /** Where `strchr(s, '\n')` points: the first newline among the visible bytes. */
  function NewlineIndex(s: seq<bv8>): (r: Option<nat>)
    ensures r.Some? ==> r.value < |s|
  {
    if s == [] || s[0] == NUL then None
    else if s[0] == NEWLINE then Some(0)
    else match NewlineIndex(s[1..])
      case None => None
      case Some(i) => Some(i + 1)
  }

  /** `strchr` finds the first newline among the visible bytes, and none
      when they hold no newline. */
  lemma {:induction false} NewlineIndexIsFirst(s: seq<bv8>)
    ensures var r := NewlineIndex(s);
            (r.Some? ==> r.value < |Visible(s)| && Visible(s)[r.value] == NEWLINE &&
                         NEWLINE !in Visible(s)[..r.value]) &&
            (r.None? ==> NEWLINE !in Visible(s))
  {
    if s != [] && s[0] != NUL && s[0] != NEWLINE {
      NewlineIndexIsFirst(s[1..]);
      var v := Visible(s[1..]);
      assert Visible(s) == [s[0]] + v;
      match NewlineIndex(s[1..])
      case Some(i) =>
        assert Visible(s)[..i + 1] == [s[0]] + v[..i];
      case None =>
    }
  }

  /** The bytes of a received chunk that the receive loop hands to `fwrite`:
      through the newline when `strchr` finds one, otherwise the whole chunk,
      bytes after an embedded zero byte included. */
  function ToWrite(chunk: seq<bv8>): (w: seq<bv8>)
    ensures w <= chunk
  {
    match NewlineIndex(chunk)
    case Some(i) => chunk[..i + 1]
    case None => chunk
  }

  /** A newline with no zero byte and no newline before it is what `strchr` finds. */
  lemma {:induction false} NewlineIndexAt(s: seq<bv8>, i: nat)
    requires i < |s|
    requires forall j :: 0 <= j < i ==> s[j] != NUL && s[j] != NEWLINE
    ensures s[i] == NEWLINE ==> NewlineIndex(s) == Some(i)
    ensures s[i] == NUL ==> NewlineIndex(s) == None
  {
    if i > 0 {
      NewlineIndexAt(s[1..], i - 1);
    }
  }

  /** Whatever follows the terminator written after the chunk is never searched. */
  lemma {:induction false} NewlineIndexStopsAtNul(chunk: seq<bv8>, rest: seq<bv8>)
    ensures NewlineIndex(chunk + [NUL] + rest) == NewlineIndex(chunk)
  {
    if chunk != [] {
      assert (chunk + [NUL] + rest)[1..] == chunk[1..] + [NUL] + rest;
      NewlineIndexStopsAtNul(chunk[1..], rest);
    }
  }

  /** `strchr(buffer, '\n')` on a NUL-terminated buffer; the scan never leaves the array. */
  method FindNewline(buffer: array<bv8>) returns (r: Option<nat>)
    requires NUL in buffer[..]
    ensures r == NewlineIndex(buffer[..])
  {
    var i := 0;
    while true
      invariant 0 <= i < buffer.Length
      invariant NUL in buffer[i..]
      invariant forall j :: 0 <= j < i ==> buffer[j] != NUL && buffer[j] != NEWLINE
      decreases buffer.Length - i
    {
      if buffer[i] == NEWLINE {
        NewlineIndexAt(buffer[..], i);
        return Some(i);
      }
      if buffer[i] == NUL {
        NewlineIndexAt(buffer[..], i);
        return None;
      }
      assert buffer[i..] == [buffer[i]] + buffer[i + 1..];
      i := i + 1;
    }
  }
}
