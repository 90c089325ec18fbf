/** Dot-stuffing, the transparency rule shared by SMTP DATA (section 4.5.2 of RFC 5321) and POP3
    multi-line replies (section 3 of RFC 1939): where a dot-terminated text ends, and the text that
    a receiver takes from it. */
module DotStuffing {
  import opened Basics
  import opened Bytes

  /** The end-of-message line starts at position p of s. */
  ghost predicate EndsAt(s: bytes, p: nat, atLineStart: bool) {
    && p + 3 <= |s|
    && s[p..p + 3] == END
    && (if p == 0 then atLineStart else s[p - 1] == LF)
  }

  /** The first end-of-message line of s. */
  function FindEnd(s: bytes, atLineStart: bool): (r: Option<nat>)
    ensures r.Some? ==> EndsAt(s, r.value, atLineStart)
    ensures r.Some? ==> forall q: nat :: q < r.value ==> !EndsAt(s, q, atLineStart)
    ensures r.None? ==> forall q: nat :: !EndsAt(s, q, atLineStart)
  {
    if |s| == 0 then None
    else if atLineStart && END <= s then Some(0)
    else
      EndsAtTail(s, atLineStart);
      match FindEnd(s[1..], s[0] == LF)
      case None => None
      case Some(p) => Some(p + 1)
  }

  lemma EndsAtShift(s: bytes, n: nat, q: nat, tailAtLineStart: bool, atLineStart: bool)
    requires 0 < n <= |s| && tailAtLineStart == (s[n - 1] == LF)
    ensures EndsAt(s[n..], q, tailAtLineStart) <==> EndsAt(s, n + q, atLineStart)
  {
    if n + q + 3 <= |s| {
      assert s[n..][q..q + 3] == s[n + q..n + q + 3];
    }
  }

  lemma EndsAtTail(s: bytes, atLineStart: bool)
    requires s != []
    ensures EndsAt(s, 0, atLineStart) <==> atLineStart && END <= s
    ensures forall q: nat :: q > 0 ==> (EndsAt(s, q, atLineStart) <==> EndsAt(s[1..], q - 1, s[0] == LF))
  {
    forall q: nat | q > 0 ensures EndsAt(s, q, atLineStart) <==> EndsAt(s[1..], q - 1, s[0] == LF) {
      EndsAtShift(s, 1, q - 1, s[0] == LF, atLineStart);
    }
  }

  /** What is left to read once the end-of-message line has been passed. */
  function AfterEnd(s: bytes, atLineStart: bool): bytes {
    match FindEnd(s, atLineStart)
    case None => []
    case Some(p) => s[p + 3..]
  }

  /** Section 4.5.2 of RFC 5321: a dot at the start of a line is not part of the text. */
  function Unstuff(s: bytes, atLineStart: bool): (r: bytes)
    ensures |r| <= |s|
  {
    if |s| == 0 then []
    else if atLineStart && s[0] == DOT then Unstuff(s[1..], false)
    else [s[0]] + Unstuff(s[1..], s[0] == LF)
  }

  /** Whether text that follows s starts a line. */
  function LineStartAfter(s: bytes, atLineStart: bool): bool {
    if |s| == 0 then atLineStart else s[|s| - 1] == LF
  }

  lemma FindEndStep(s: bytes, atLineStart: bool)
    requires s != [] && !EndsAt(s, 0, atLineStart)
    ensures FindEnd(s, atLineStart)
            == match FindEnd(s[1..], s[0] == LF)
               case None => None
               case Some(p) => Some(p + 1)
  {
    EndsAtTail(s, atLineStart);
  }

  lemma LineStartStep(s: bytes, atLineStart: bool)
    requires s != []
    ensures LineStartAfter(s[1..], s[0] == LF) == LineStartAfter(s, atLineStart)
  {
  }

  lemma {:induction false} FindEndSkips(pre: bytes, rest: bytes, atLineStart: bool)
    requires forall q: nat :: q < |pre| ==> !EndsAt(pre + rest, q, atLineStart)
    ensures FindEnd(pre + rest, atLineStart)
            == match FindEnd(rest, LineStartAfter(pre, atLineStart))
               case None => None
               case Some(p) => Some(|pre| + p)
  {
    hide FindEnd, EndsAt;
    if pre == [] {
      assert pre + rest == rest;
    } else {
      var s, tailAtLineStart := pre + rest, pre[0] == LF;
      FindEndStep(s, atLineStart);
      LineStartStep(pre, atLineStart);
      hide LineStartAfter;
      assert s[1..] == pre[1..] + rest;
      forall q: nat | q < |pre[1..]| ensures !EndsAt(pre[1..] + rest, q, tailAtLineStart) {
        EndsAtShift(s, 1, q, tailAtLineStart, atLineStart);
      }
      FindEndSkips(pre[1..], rest, tailAtLineStart);
    }
  }

  lemma {:induction false} UnstuffConcat(a: bytes, b: bytes, atLineStart: bool)
    ensures Unstuff(a + b, atLineStart) == Unstuff(a, atLineStart) + Unstuff(b, LineStartAfter(a, atLineStart))
  {
    if a == [] {
      assert a + b == b;
    } else {
      hide Unstuff, LineStartAfter;
      assert (a + b)[1..] == a[1..] + b;
      LineStartStep(a, atLineStart);
      UnstuffStep(a, atLineStart);
      UnstuffStep(a + b, atLineStart);
      UnstuffConcat(a[1..], b, a[0] == LF);
    }
  }

  lemma UnstuffStep(s: bytes, atLineStart: bool)
    requires s != []
    ensures Unstuff(s, atLineStart) == (if atLineStart && s[0] == DOT then [] else [s[0]]) + Unstuff(s[1..], s[0] == LF)
  {
  }

  /** Within one line only its first octet can be dropped. */
  lemma {:induction false} UnstuffWithinLine(s: bytes, atLineStart: bool)
    requires IsLine(s) || NoLF(s)
    ensures Unstuff(s, atLineStart) == if atLineStart && s != [] && s[0] == DOT then s[1..] else s
  {
    if s != [] {
      assert IsLine(s[1..]) || NoLF(s[1..]);
      UnstuffWithinLine(s[1..], false);
      assert s[0] == LF ==> s[1..] == [];
    }
  }

  /** A line that is not the end-of-message line, or a fragment too long to be one, is passed over. */
  lemma FragmentIsSkipped(fragment: bytes, rest: bytes, atLineStart: bool)
    requires (IsLine(fragment) && !(atLineStart && fragment == END)) || (NoLF(fragment) && |fragment| >= 3)
    ensures forall q: nat :: q < |fragment| ==> !EndsAt(fragment + rest, q, atLineStart)
  {
    forall q: nat | q < |fragment| ensures !EndsAt(fragment + rest, q, atLineStart) {
      var s := fragment + rest;
      if q + 3 <= |s| && s[q..q + 3] == END {
        assert s[q] == s[q..q + 3][0] && s[q + 1] == s[q..q + 3][1] && s[q + 2] == s[q..q + 3][2];
        if IsLine(fragment) {
          var text := fragment[..|fragment| - 1];
          assert forall k :: 0 <= k < |text| ==> text[k] == s[k];
          assert |fragment| == 3 ==> fragment == s[..3];
        }
      }
    }
  }

  lemma EndLineEnds(rest: bytes)
    ensures FindEnd(END + rest, true) == Some(0)
    ensures (END + rest)[3..] == rest
  {
    assert END <= END + rest;
  }

  lemma ShortTailHasNoEnd(s: bytes, atLineStart: bool)
    requires NoLF(s)
    ensures FindEnd(s, atLineStart) == None
  {
    forall q: nat ensures !EndsAt(s, q, atLineStart) {
      if q + 3 <= |s| {
        assert s[q..q + 3][2] == s[q + 2];
      }
    }
  }

  // ---------------------------------------------------------------- the sender's side

  /** What a sender transmits: a dot at the start of a line is doubled. */
  function Stuff(s: bytes, atLineStart: bool): (r: bytes) {
    if |s| == 0 then []
    else if atLineStart && s[0] == DOT then [DOT, DOT] + Stuff(s[1..], false)
    else [s[0]] + Stuff(s[1..], s[0] == LF)
  }

  lemma {:induction false} StuffLineStart(s: bytes, atLineStart: bool)
    ensures LineStartAfter(Stuff(s, atLineStart), atLineStart) == LineStartAfter(s, atLineStart)
    ensures s != [] ==> Stuff(s, atLineStart) != [] && Stuff(s, atLineStart)[0] == s[0]
  {
    if s != [] {
      var at := !(atLineStart && s[0] == DOT) && s[0] == LF;
      StuffLineStart(s[1..], at);
      if s[1..] != [] {
        var t := Stuff(s[1..], at);
        assert Stuff(s, atLineStart)[|Stuff(s, atLineStart)| - 1] == t[|t| - 1];
      }
    }
  }

  lemma {:induction false} UnstuffUndoesStuff(s: bytes, atLineStart: bool)
    ensures Unstuff(Stuff(s, atLineStart), atLineStart) == s
  {
    if s != [] {
      if atLineStart && s[0] == DOT {
        var t := Stuff(s[1..], false);
        assert ([DOT, DOT] + t)[1..] == [DOT] + t;
        assert ([DOT] + t)[1..] == t;
        UnstuffUndoesStuff(s[1..], false);
      } else {
        UnstuffUndoesStuff(s[1..], s[0] == LF);
      }
    }
  }

  /** Stuffed text never holds the end line, whatever follows it. */
  lemma {:induction false} StuffedHasNoEnd(s: bytes, tail: bytes, atLineStart: bool)
    ensures forall q: nat :: q < |Stuff(s, atLineStart)| ==> !EndsAt(Stuff(s, atLineStart) + tail, q, atLineStart)
  {
    if s != [] {
      var whole := Stuff(s, atLineStart) + tail;
      var dotted := atLineStart && s[0] == DOT;
      var skip := if dotted then 2 else 1;
      var at := !dotted && s[0] == LF;
      var rest := Stuff(s[1..], at) + tail;
      StuffedHasNoEnd(s[1..], tail, at);
      assert Stuff(s, atLineStart) == whole[..skip] + Stuff(s[1..], at);
      assert rest == whole[skip..];
      forall q: nat | q < |Stuff(s, atLineStart)| ensures !EndsAt(whole, q, atLineStart) {
        if q >= skip {
          assert !EndsAt(rest, q - skip, at);
          EndsAtShift(whole, skip, q - skip, at, atLineStart);
        } else if q + 3 <= |whole| {
          assert whole[q] == whole[q..q + 3][0] && whole[q + 1] == whole[q..q + 3][1];
        }
      }
    }
  }

  /** Transparency: the end of a stuffed text is found where the sender put it, and the receiver
      takes back what was sent. */
  lemma StuffedTextIsRecovered(text: bytes, rest: bytes)
    requires LineStartAfter(text, true)
    ensures var wire := Stuff(text, true) + END + rest;
            var e := FindEnd(wire, true);
            && e == Some(|Stuff(text, true)|)
            && Unstuff(wire[..e.value], true) == text
            && AfterEnd(wire, true) == rest
  {
    var stuffed := Stuff(text, true);
    var wire := stuffed + END + rest;
    assert wire == stuffed + (END + rest);
    StuffedHasNoEnd(text, END + rest, true);
    FindEndSkips(stuffed, END + rest, true);
    StuffLineStart(text, true);
    EndLineEnds(rest);
    assert wire[..|stuffed|] == stuffed;
    UnstuffUndoesStuff(text, true);
  }

  lemma {:induction false} StuffConcat(a: bytes, b: bytes, atLineStart: bool)
    ensures Stuff(a + b, atLineStart) == Stuff(a, atLineStart) + Stuff(b, LineStartAfter(a, atLineStart))
  {
    if a == [] {
      assert a + b == b;
    } else {
      assert (a + b)[1..] == a[1..] + b;
      StuffConcat(a[1..], b, !(atLineStart && a[0] == DOT) && a[0] == LF);
    }
  }

  /** Text that opens with a dot is stuffed differently at the start of a line. */
  lemma StuffNoLeadingDot(s: bytes)
    requires s == [] || s[0] != DOT
    ensures Stuff(s, true) == Stuff(s, false)
  {
  }

  /** What a receiver that takes everything up to the end line makes of a reply. */
  function Received(wire: bytes): Option<bytes> {
    match FindEnd(wire, true)
    case None => None
    case Some(p) => Some(Unstuff(wire[..p], true))
  }

  /** A leading dot that was not doubled is lost to the receiver. */
  lemma UnstuffUndoubled(s: bytes)
    ensures Unstuff(Stuff(s, false), true) == if s != [] && s[0] == DOT then s[1..] else s
  {
    if s != [] && s[0] == DOT {
      UnstuffUndoesStuff(s[1..], false);
      assert Stuff(s, false)[1..] == Stuff(s[1..], false);
    } else {
      StuffNoLeadingDot(s);
      UnstuffUndoesStuff(s, true);
    }
  }

  lemma ReceivedIsNoLonger(s: bytes)
    ensures match Received(s + END) case None => true case Some(text) => |text| <= |Unstuff(s, true)|
  {
    var wire := s + END;
    if FindEnd(wire, true).Some? {
      var p := FindEnd(wire, true).value;
      assert p <= |s|;
      assert wire[..p] == s[..p];
      assert s == s[..p] + s[p..];
      UnstuffConcat(s[..p], s[p..], true);
    }
  }
}
