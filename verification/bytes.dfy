/** Octets, the buffered reader both mail servers read from, and the few facts about
    line feeds that their framing depends on. */
module Bytes {
  import opened Basics

  newtype byte = b: int | 0 <= b < 256

  type bytes = seq<byte>

  const LF: byte := 10
  const CR: byte := 13
  const DOT: byte := 46

  const CRLF: bytes := [CR, LF]

  /** The line that ends a message, in SMTP and in a POP3 multi-line reply. */
  const END: bytes := [DOT, CR, LF]

  /** The end of a header section. */
  const BLANK: bytes := CRLF + CRLF

  /** The position of the first line feed, or the length when there is none. */
  function IndexLF(s: bytes): (i: nat)
    ensures i <= |s|
    ensures i < |s| ==> s[i] == LF
    ensures forall k :: 0 <= k < i ==> s[k] != LF
  {
    if |s| == 0 || s[0] == LF then 0 else 1 + IndexLF(s[1..])
  }

  /** The position of the first occurrence of pat, or the length when there is none. */
  function IndexOf(s: bytes, pat: bytes): (i: nat)
    requires pat != []
    ensures i <= |s|
    ensures i < |s| ==> pat <= s[i..]
    ensures forall k :: 0 <= k < i ==> !(pat <= s[k..])
  {
    if s == [] || pat <= s then 0
    else
      var i := 1 + IndexOf(s[1..], pat);
      assert forall k :: 1 <= k <= |s| ==> s[k..] == s[1..][k - 1..];
      i
  }

  lemma CutAt(s: bytes, sep: bytes, i: nat)
    requires i <= |s| && sep <= s[i..]
    ensures i + |sep| <= |s| && s == s[..i] + sep + s[i + |sep|..]
  {
    assert sep == s[i..][..|sep|] == s[i..i + |sep|];
  }

  ghost predicate NoLF(s: bytes) {
    forall k :: 0 <= k < |s| ==> s[k] != LF
  }

  /** A complete line: one line feed, at its end. */
  ghost predicate IsLine(s: bytes) {
    |s| > 0 && s[|s| - 1] == LF && NoLF(s[..|s| - 1])
  }

  /** A line without its line ending. */
  function Chomp(s: bytes): bytes {
    if s == [] || s[|s| - 1] != LF then s
    else if |s| > 1 && s[|s| - 2] == CR then s[..|s| - 2]
    else s[..|s| - 1]
  }

  datatype SliceStatus =
    | Complete    // the fragment ends with a line feed
    | BufferFull  // the fragment fills the buffer and holds no line feed
    | Broken      // the connection ended before a line feed

  /** A reader with a fixed-size buffer over what the peer still sends before the
      connection ends. `pending` does not say which octets are already buffered: no result of
      ReadSlice depends on it. */
  class Reader {
    const capacity: nat
    var pending: bytes

    constructor (capacity: nat, input: bytes)
      ensures this.capacity == capacity && pending == input
    {
      this.capacity := capacity;
      pending := input;
    }

    /** Reads up to the next line feed, stopping early when the buffer is full. */
    method ReadSlice() returns (fragment: bytes, status: SliceStatus)
      requires capacity > 0
      modifies this
      ensures old(pending) == fragment + pending
      ensures status.Complete? ==> IsLine(fragment) && |fragment| <= capacity
      ensures status.BufferFull? ==> |fragment| == capacity && NoLF(fragment)
      ensures status.Broken? ==> pending == [] && NoLF(fragment) && |fragment| < capacity
    {
      var window := pending[..Min(capacity, |pending|)];
      var i := IndexLF(window);
      assert pending == window + pending[|window|..];
      if i < |window| {
        fragment, status := window[..i + 1], Complete;
        assert fragment[..i] == window[..i];
      } else if |window| == capacity {
        fragment, status := window, BufferFull;
      } else {
        fragment, status := pending, Broken;
      }
      pending := pending[|fragment|..];
    }

    /** One line without its line ending, or, flagged as a prefix, as much of it as the buffer holds. A
        carriage return at the end of a full buffer is put back, as it may belong to the line ending. A
        last line that no line feed ends is returned like any other. */
    method ReadLine() returns (line: bytes, isPrefix: bool, lost: bool, ghost raw: bytes)
      requires capacity > 1
      modifies this
      ensures old(pending) == raw + pending
      ensures lost ==> raw == pending == []
      ensures !lost ==> raw != []
      ensures !lost && isPrefix ==> NoLF(raw) && line == raw
      ensures !lost && isPrefix ==> |old(pending)| >= capacity && NoLF(old(pending)[..capacity])
      ensures !lost && !isPrefix ==> (IsLine(raw) || (NoLF(raw) && pending == [])) && line == Chomp(raw)
      ensures !lost && !isPrefix ==> |raw| <= capacity && (!IsLine(raw) ==> |raw| < capacity)
    {
      ghost var before := pending;
      var status;
      line, status := ReadSlice();
      raw, isPrefix, lost := line, false, false;
      match status {
        case BufferFull =>
          isPrefix := true;
          assert before[..capacity] == line;
          if line[|line| - 1] == CR {
            pending := [CR] + pending;
            line := line[..|line| - 1];
            raw := line;
          }
        case Broken =>
          lost := line == [];
        case Complete =>
          line := Chomp(line);
      }
    }
  }
}
