/** The DATA phase of an SMTP session: reading a message body through a fixed-size buffer,
    undoing dot-stuffing, enforcing the size limit and, after a rejection, finding the end of
    the message again so that no octet of it is taken for a command. */
module SmtpData {
  import opened Basics
  import opened Bytes
  import opened DotStuffing

  lemma PiecePassed(piece: bytes, rest: bytes, atLineStart: bool)
    requires (IsLine(piece) && !(atLineStart && piece == END)) || (NoLF(piece) && |piece| >= 3)
    ensures AfterEnd(piece + rest, atLineStart) == AfterEnd(rest, IsLine(piece))
  {
    hide FindEnd, EndsAt;
    FragmentIsSkipped(piece, rest, atLineStart);
    FindEndSkips(piece, rest, atLineStart);
    if FindEnd(rest, IsLine(piece)).Some? {
      var p := FindEnd(rest, IsLine(piece)).value;
      FindEndBound(rest, IsLine(piece));
      assert (piece + rest)[|piece| + p..][3..] == rest[p..][3..];
    }
  }

  lemma FindEndBound(s: bytes, atLineStart: bool)
    ensures FindEnd(s, atLineStart).Some? ==> FindEnd(s, atLineStart).value + 3 <= |s|
  {
  }

  lemma EndPassed(rest: bytes)
    ensures AfterEnd(END + rest, true) == rest
  {
    EndLineEnds(rest);
  }

  lemma NothingAfterLoss(s: bytes, atLineStart: bool)
    requires NoLF(s)
    ensures AfterEnd(s, atLineStart) == []
  {
    ShortTailHasNoEnd(s, atLineStart);
  }

  /** Discards the remainder of a message, up to and including its end line. */
  method DrainData(r: Reader, startsAtLineStart: bool)
    requires r.capacity >= 3
    modifies r
    ensures r.pending == AfterEnd(old(r.pending), startsAtLineStart)
  {
    hide AfterEnd;
    var atLineStart := startsAtLineStart;
    while true
      invariant AfterEnd(r.pending, atLineStart) == AfterEnd(old(r.pending), startsAtLineStart)
      decreases |r.pending|
    {
      ghost var before := r.pending;
      var line, status := r.ReadSlice();
      if status.Broken? {
        assert before == line;
        NothingAfterLoss(before, atLineStart);
        return;
      }
      if atLineStart && line == END {
        EndPassed(r.pending);
        return;
      }
      PiecePassed(line, r.pending, atLineStart);
      atLineStart := status.Complete?;
    }
  }

  datatype DataError =
    | MaxSizeExceeded(limit: int)
    | ConnectionLost

  predicate OverLimit(size: nat, maxSize: int) {
    maxSize > 0 && size > maxSize
  }

  /** What reading one message must give: the text up to the end line without its stuffing, unless
      that text is over the limit. */
  function Message(input: bytes, maxSize: int): Result<bytes, DataError>
    requires FindEnd(input, true).Some?
  {
    var text := Unstuff(input[..FindEnd(input, true).value], true);
    if OverLimit(|text|, maxSize) then Err(MaxSizeExceeded(maxSize)) else Ok(text)
  }

  /** The message is refused for its size, and draining leaves the reader at `rest`. */
  ghost predicate Refused(input: bytes, rest: bytes, maxSize: int) {
    && rest == AfterEnd(input, true)
    && OverLimit(|input|, maxSize)
    && (FindEnd(input, true).Some? ==> Message(input, maxSize) == Err(MaxSizeExceeded(maxSize)))
  }

  /** `used` has been read, holds no end line, and its text is `data`. */
  ghost predicate ProgressBy(input: bytes, used: bytes, data: bytes, pending: bytes) {
    && input == used + pending
    && LineStartAfter(used, true)
    && Unstuff(used, true) == data
    && forall q: nat :: q < |used| ==> !EndsAt(input, q, true)
  }

  lemma ProgressEnd(input: bytes, used: bytes, data: bytes, pending: bytes)
    requires ProgressBy(input, used, data, pending)
    ensures AfterEnd(input, true) == AfterEnd(pending, true)
    ensures FindEnd(input, true).None? <==> FindEnd(pending, true).None?
    ensures FindEnd(input, true).Some? ==>
              Unstuff(input[..FindEnd(input, true).value], true)
              == data + Unstuff(pending[..FindEnd(pending, true).value], true)
  {
    hide FindEnd, Unstuff;
    FindEndSkips(used, pending, true);
    if FindEnd(pending, true).Some? {
      var p := FindEnd(pending, true).value;
      assert input[|used| + p..][3..] == pending[p..][3..];
      assert input[..|used| + p] == used + pending[..p];
      UnstuffConcat(used, pending[..p], true);
    }
  }

  lemma ProgressLine(input: bytes, used: bytes, data: bytes, line: bytes, pending: bytes)
    requires ProgressBy(input, used, data, line + pending)
    requires IsLine(line) && line != END
    ensures ProgressBy(input, used + line, data + (if line[0] == DOT then line[1..] else line), pending)
  {
    hide FindEnd, Unstuff;
    assert input == (used + line) + pending;
    UnstuffConcat(used, line, true);
    UnstuffWithinLine(line, true);
    FragmentIsSkipped(line, pending, true);
    forall q: nat | |used| <= q < |used + line| ensures !EndsAt(input, q, true) {
      assert !EndsAt(line + pending, q - |used|, true);
      if q + 3 <= |input| {
        assert input[q..q + 3] == (line + pending)[q - |used|..q - |used| + 3];
      }
    }
  }

  lemma MidLineIsKept(s: bytes)
    requires s != []
    ensures |Unstuff(s, false)| > 0
  {
  }

  lemma EndIsNotMidLine(s: bytes)
    ensures FindEnd(s, false) != Some(0)
    ensures FindEnd(s, false).Some? ==> FindEnd(s, false).value + 3 <= |s|
  {
  }

  /** The text of a message whose first line starts with `line` is at least as long as `line`, dot
      included: what follows holds at least the line feed. */
  lemma PartialLineBound(line: bytes, pending: bytes)
    requires NoLF(line) && |line| >= 3
    ensures AfterEnd(line + pending, true) == AfterEnd(pending, false)
    ensures var e := FindEnd(line + pending, true);
            e.Some? ==> |Unstuff((line + pending)[..e.value], true)| >= |line|
  {
    hide FindEnd, EndsAt, Unstuff;
    var rest := line + pending;
    FragmentIsSkipped(line, pending, true);
    FindEndSkips(line, pending, true);
    EndIsNotMidLine(pending);
    if FindEnd(pending, false).Some? {
      var p := FindEnd(pending, false).value;
      assert rest[|line| + p..][3..] == pending[p..][3..];
      assert rest[..|line| + p] == line + pending[..p];
      MidLineIsKept(pending[..p]);
      UnstuffConcat(line, pending[..p], true);
      UnstuffWithinLine(line, true);
    }
  }

  /** The early check: a partial line that is already over the limit, its dot included, belongs to a
      message that is over the limit without it. */
  lemma PartialLineRefused(input: bytes, used: bytes, data: bytes, line: bytes, pending: bytes, maxSize: int)
    requires ProgressBy(input, used, data, line + pending)
    requires NoLF(line) && |line| >= 3
    requires OverLimit(|data| + |line|, maxSize)
    ensures Refused(input, AfterEnd(pending, false), maxSize)
  {
    PartialLineBound(line, pending);
    ProgressEnd(input, used, data, line + pending);
  }

  lemma LineRefused(input: bytes, used: bytes, data: bytes, pending: bytes, maxSize: int)
    requires ProgressBy(input, used, data, pending)
    requires OverLimit(|data|, maxSize)
    ensures Refused(input, AfterEnd(pending, true), maxSize)
  {
    ProgressEnd(input, used, data, pending);
  }

  lemma Lost(input: bytes, used: bytes, data: bytes, pending: bytes)
    requires ProgressBy(input, used, data, pending)
    requires NoLF(pending)
    ensures FindEnd(input, true).None? && AfterEnd(input, true) == []
  {
    ShortTailHasNoEnd(pending, true);
    ProgressEnd(input, used, data, pending);
  }

  lemma Finished(input: bytes, used: bytes, data: bytes, pending: bytes, maxSize: int)
    requires ProgressBy(input, used, data, END + pending)
    requires !OverLimit(|data|, maxSize)
    ensures FindEnd(input, true).Some? && Message(input, maxSize) == Ok(data)
    ensures AfterEnd(input, true) == pending
  {
    EndLineEnds(pending);
    ProgressEnd(input, used, data, END + pending);
    assert Unstuff((END + pending)[..0], true) == [];
  }

  lemma NothingReadYet(input: bytes)
    ensures ProgressBy(input, [], [], input) && NoLF([])
  {
    assert [] + input == input;
  }

  lemma LineExtends(soFar: bytes, fragment: bytes)
    requires NoLF(soFar)
    ensures IsLine(fragment) ==> IsLine(soFar + fragment)
    ensures NoLF(fragment) ==> NoLF(soFar + fragment)
  {
    var line := soFar + fragment;
    if IsLine(fragment) {
      assert line[..|line| - 1] == soFar + fragment[..|fragment| - 1];
    }
  }

  /** Reads the message that follows a DATA command. For every input, every buffer that can hold the
      end line and every limit, the reader is left just after the end line whether the message is
      taken or refused, and it is refused exactly when its text is over the limit. */
  method ReadData(r: Reader, maxSize: int) returns (result: Result<bytes, DataError>)
    requires r.capacity >= 3
    modifies r
    ensures r.pending == AfterEnd(old(r.pending), true)
    ensures FindEnd(old(r.pending), true).Some? ==> result == Message(old(r.pending), maxSize)
    ensures FindEnd(old(r.pending), true).None? ==>
              result.Err? && (result.error.MaxSizeExceeded? ==> OverLimit(|old(r.pending)|, maxSize))
  {
    hide FindEnd, AfterEnd, Unstuff, ProgressBy, Message, IsLine, NoLF;
    ghost var input := r.pending;
    ghost var used: bytes := [];
    var data: bytes := [];
    NothingReadYet(input);
    while true
      invariant ProgressBy(input, used, data, r.pending)
      invariant !OverLimit(|data|, maxSize)
      decreases |r.pending|
    {
      ghost var before := r.pending;
      var line: bytes := [];
      while true
        invariant before == line + r.pending
        invariant NoLF(line) && (line == [] || |line| >= 3)
        decreases |r.pending|
      {
        var fragment, status := r.ReadSlice();
        ghost var soFar := line;
        line := line + fragment;
        assert before == line + r.pending;
        LineExtends(soFar, fragment);
        if status.Complete? {
          break;
        }
        if status.Broken? {
          assert before == line;
          Lost(input, used, data, before);
          return Err(ConnectionLost);
        }
        if OverLimit(|data| + |line|, maxSize) {
          PartialLineRefused(input, used, data, line, r.pending, maxSize);
          DrainData(r, false);
          return Err(MaxSizeExceeded(maxSize));
        }
      }
      if line == END {
        Finished(input, used, data, r.pending, maxSize);
        break;
      }
      ProgressLine(input, used, data, line, r.pending);
      used := used + line;
      if line[0] == DOT {
        line := line[1..];
      }
      if OverLimit(|data| + |line|, maxSize) {
        LineRefused(input, used, data + line, r.pending, maxSize);
        DrainData(r, true);
        return Err(MaxSizeExceeded(maxSize));
      }
      data := data + line;
    }
    return Ok(data);
  }
}
