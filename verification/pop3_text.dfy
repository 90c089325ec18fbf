/** How POP3 sends a message: the byte-stuffing of RETR and TOP, and what a client makes of it. */
module Pop3Text {
  import opened Basics
  import opened Bytes
  import opened DotStuffing

  /** strings.ReplaceAll for a nonempty pattern. */
  function ReplaceAll(s: bytes, old_: bytes, new_: bytes): bytes
    requires old_ != []
  {
    if s == [] then []
    else if old_ <= s then new_ + ReplaceAll(s[|old_|..], old_, new_)
    else [s[0]] + ReplaceAll(s[1..], old_, new_)
  }

  /** The stuffing of RETR and TOP, which does not look at the start of the text. */
  function ByteStuff(s: bytes): bytes {
    ReplaceAll(s, [LF, DOT], [LF, DOT, DOT])
  }

  lemma {:induction false} ByteStuffIsStuff(s: bytes)
    ensures ByteStuff(s) == Stuff(s, false)
  {
    if s != [] {
      var pattern := [LF, DOT];
      if pattern <= s {
        assert s[1..][0] == DOT && s[1..][1..] == s[2..];
        ByteStuffIsStuff(s[2..]);
      } else {
        ByteStuffIsStuff(s[1..]);
        assert |s| > 1 ==> s[..2] == [s[0], s[1]];
        if s[0] == LF {
          StuffNoLeadingDot(s[1..]);
        }
      }
    }
  }

  function RetrWire(raw: bytes): bytes {
    ByteStuff(raw) + CRLF + END
  }

  lemma StuffedLineEnding()
    ensures forall at :: Stuff(CRLF, at) == CRLF && Unstuff(CRLF, at) == CRLF
    ensures forall at :: Stuff(BLANK + CRLF, at) == BLANK + CRLF && Unstuff(BLANK + CRLF, at) == BLANK + CRLF
  {
    forall at: bool
      ensures Stuff(CRLF, at) == CRLF && Unstuff(CRLF, at) == CRLF
      ensures Stuff(BLANK + CRLF, at) == BLANK + CRLF && Unstuff(BLANK + CRLF, at) == BLANK + CRLF
    {
      assert CRLF[1..] == [LF] && [LF][1..] == [];
      StuffConcat(CRLF, CRLF, at);
      UnstuffConcat(CRLF, CRLF, at);
      StuffConcat(BLANK, CRLF, at);
      UnstuffConcat(BLANK, CRLF, at);
    }
  }

  // ---------------------------------------------------------------- TOP

  /** strings.SplitN for n > 0: at most n pieces, the last one holding the remainder. */
  function SplitN(s: bytes, sep: bytes, n: nat): (r: seq<bytes>)
    requires sep != [] && n > 0
    ensures 0 < |r| <= n
    decreases n
  {
    var i := IndexOf(s, sep);
    if n == 1 || i == |s| then [s] else [s[..i]] + SplitN(s[i + |sep|..], sep, n - 1)
  }

  function Join(parts: seq<bytes>, sep: bytes): bytes
    decreases |parts|
  {
    if |parts| == 0 then [] else if |parts| == 1 then parts[0] else parts[0] + sep + Join(parts[1..], sep)
  }

  lemma JoinCons(first: bytes, parts: seq<bytes>, sep: bytes)
    requires parts != []
    ensures Join([first] + parts, sep) == first + sep + Join(parts, sep)
  {
    assert ([first] + parts)[1..] == parts;
  }

  lemma {:induction false} JoinSplit(s: bytes, sep: bytes, n: nat)
    requires sep != [] && n > 0
    ensures Join(SplitN(s, sep, n), sep) == s
    decreases n
  {
    var i := IndexOf(s, sep);
    if n > 1 && i < |s| {
      CutAt(s, sep, i);
      var rest := s[i + |sep|..];
      JoinSplit(rest, sep, n - 1);
      JoinCons(s[..i], SplitN(rest, sep, n - 1), sep);
    }
  }

  /** getTop: the header section, and the body split into lines and joined again. */
  function GetTop(raw: bytes, lines: int): (bytes, bytes) {
    var parts := SplitN(raw, BLANK, 2);
    (parts[0], if lines > 0 && |parts| == 2 then Join(SplitN(parts[1], CRLF, lines), CRLF) else [])
  }

  /** Each piece is sent with a line ending of its own, the empty line between them too. */
  function TopWire(raw: bytes, lines: int): bytes {
    var (headers, body) := GetTop(raw, lines);
    ByteStuff(headers) + CRLF + (CRLF + CRLF) + ByteStuff(body) + CRLF + END
  }

  lemma SplitInTwo(s: bytes)
    ensures var i := IndexOf(s, BLANK);
            if i == |s| then SplitN(s, BLANK, 2) == [s]
            else i + 4 <= |s| && s == s[..i] + BLANK + s[i + 4..] && SplitN(s, BLANK, 2) == [s[..i], s[i + 4..]]
  {
    hide IndexOf;
    var i := IndexOf(s, BLANK);
    if i < |s| {
      CutAt(s, BLANK, i);
      var first, rest := s[..i], s[i + 4..];
      var last := SplitN(rest, BLANK, 1);
      assert last == [rest];
      assert SplitN(s, BLANK, 2) == [first] + last == [first, rest];
    }
  }

  /** However many lines are asked for, TOP sends the whole body, unless none are asked for. */
  lemma TopSendsWholeBody(raw: bytes, lines: int)
    ensures lines > 0 && IndexOf(raw, BLANK) < |raw| ==> raw == GetTop(raw, lines).0 + BLANK + GetTop(raw, lines).1
    ensures IndexOf(raw, BLANK) == |raw| ==> GetTop(raw, lines) == (raw, [])
    ensures lines <= 0 ==> GetTop(raw, lines).1 == []
  {
    hide IndexOf, Join;
    SplitInTwo(raw);
    var i := IndexOf(raw, BLANK);
    if i < |raw| && lines > 0 {
      JoinSplit(raw[i + 4..], CRLF, lines);
    }
  }

  /** The lines of a text: those that a line ending ends, and a last one without. */
  function LineCount(s: bytes): nat {
    var i := IndexOf(s, CRLF);
    if s == [] then 0 else if i == |s| then 1 else 1 + LineCount(s[i + 2..])
  }

  /** What follows the first empty line. */
  function BodyOf(raw: bytes): bytes {
    var i := IndexOf(raw, BLANK);
    if i + 4 <= |raw| then raw[i + 4..] else []
  }

  /** TOP keeps to the number of lines asked for if and only if the body has no more, or none are asked
      for. */
  lemma TopKeepsToLinesExactlyWhen(raw: bytes, lines: nat)
    ensures LineCount(GetTop(raw, lines).1) <= lines <==> lines == 0 || LineCount(BodyOf(raw)) <= lines
  {
    hide IndexOf, LineCount;
    TopSendsBody(raw, lines);
    NoLines();
  }

  lemma TopSendsBody(raw: bytes, lines: int)
    ensures GetTop(raw, lines).1 == if lines > 0 then BodyOf(raw) else []
  {
    hide IndexOf, Join, SplitN;
    var i := IndexOf(raw, BLANK);
    SplitInTwo(raw);
    if i < |raw| && lines > 0 {
      JoinSplit(raw[i + 4..], CRLF, lines);
    }
  }

  lemma TopSendsHeaders(raw: bytes, lines: int)
    ensures GetTop(raw, lines).0 == raw[..IndexOf(raw, BLANK)]
  {
    hide IndexOf, Join, SplitN;
    SplitInTwo(raw);
    assert raw[..|raw|] == raw;
  }

  lemma NoLines()
    ensures LineCount([]) == 0
  {
  }

  /** One line asked for, two sent. */
  lemma TopSendsTwoLines()
    ensures var a, b: byte := 97, 98;
            GetTop([a] + BLANK + [a] + CRLF + [b], 1) == ([a], [a] + CRLF + [b]) && LineCount([a] + CRLF + [b]) == 2
  {
    var a, b: byte := 97, 98;
    var raw, body := [a] + BLANK + [a] + CRLF + [b], [a] + CRLF + [b];
    hide IndexOf, LineCount, GetTop;
    FoundAfterOne(a, BLANK, [a] + CRLF + [b]);
    FoundAfterOne(a, CRLF, [b]);
    assert raw == [a] + BLANK + ([a] + CRLF + [b]);
    TopSendsBody(raw, 1);
    TopSendsHeaders(raw, 1);
    NotFoundInOne(b);
    CountTwo(body, [b]);
  }

  lemma FoundAfterOne(a: byte, pat: bytes, rest: bytes)
    requires pat != [] && pat[0] != a
    ensures IndexOf([a] + pat + rest, pat) == 1
    ensures ([a] + pat + rest)[..1] == [a] && ([a] + pat + rest)[1 + |pat|..] == rest
  {
    var s := [a] + pat + rest;
    assert s[0] == a && s[1..] == pat + rest && pat <= s[1..];
  }

  lemma NotFoundInOne(b: byte)
    ensures LineCount([b]) == 1
  {
    assert IndexOf([b], CRLF) == 1;
  }

  lemma CountTwo(s: bytes, rest: bytes)
    requires IndexOf(s, CRLF) == 1 && |s| >= 3 && s[3..] == rest && LineCount(rest) == 1
    ensures LineCount(s) == 2
  {
  }

  predicate StartsWithDot(s: bytes) {
    s != [] && s[0] == DOT
  }

  /** Two texts stuffed each on its own, around a separator that ends a line. */
  lemma PartsRoundTrip(h: bytes, sep: bytes, b: bytes)
    requires sep != [] && sep[|sep| - 1] == LF
    requires forall at :: Stuff(sep, at) == sep && Unstuff(sep, at) == sep
    ensures var wire := Stuff(h, false) + (sep + (Stuff(b, false) + CRLF)) + END;
            Received(wire) == Some(h + (sep + (b + CRLF))) <==> !StartsWithDot(h) && !StartsWithDot(b)
  {
    hide Stuff, Unstuff, Received, FindEnd;
    StuffedLineEnding();
    var sh, sb := Stuff(h, false), Stuff(b, false);
    var s := sh + (sep + (sb + CRLF));
    var text := h + (sep + (b + CRLF));
    if StartsWithDot(h) || StartsWithDot(b) {
      UnstuffConcat(sh, sep + (sb + CRLF), true);
      UnstuffConcat(sep, sb + CRLF, LineStartAfter(sh, true));
      UnstuffConcat(sb, CRLF, true);
      UnstuffUndoubled(h);
      UnstuffUndoubled(b);
      assert |Unstuff(s, true)| < |text|;
      ReceivedIsNoLonger(s);
    } else {
      StuffNoLeadingDot(h);
      StuffNoLeadingDot(b);
      StuffConcat(h, sep + (b + CRLF), true);
      StuffConcat(sep, b + CRLF, LineStartAfter(h, true));
      StuffConcat(b, CRLF, true);
      assert Stuff(text, true) == s;
      StuffedIsReceived(text);
    }
  }

  lemma StuffedIsReceived(text: bytes)
    requires LineStartAfter(text, true)
    ensures Received(Stuff(text, true) + END) == Some(text)
  {
    StuffedTextIsRecovered(text, []);
    assert Stuff(text, true) + END + [] == Stuff(text, true) + END;
  }

  /** A message sent by RETR is received as it is stored, plus a line ending, if and only if it does not
      begin with a dot. */
  lemma RetrRoundTrip(raw: bytes)
    ensures Received(RetrWire(raw)) == Some(raw + CRLF) <==> !StartsWithDot(raw)
  {
    hide Received, FindEnd, Stuff, Unstuff, ByteStuff;
    ByteStuffIsStuff(raw);
    StuffedLineEnding();
    var s := Stuff(raw, false) + CRLF;
    if StartsWithDot(raw) {
      UnstuffConcat(Stuff(raw, false), CRLF, true);
      UnstuffUndoubled(raw);
      assert |Unstuff(s, true)| < |raw + CRLF|;
      ReceivedIsNoLonger(s);
    } else {
      StuffNoLeadingDot(raw);
      StuffConcat(raw, CRLF, true);
      StuffedIsReceived(raw + CRLF);
    }
  }

  /** What TOP sends is received as the header section, an empty line, one more empty line and the body, if
      and only if neither the header section nor the body begins with a dot: each is stuffed on its own, and a
      dot at its start is not doubled. */
  lemma TopRoundTrip(raw: bytes, lines: int)
    ensures var (headers, body) := GetTop(raw, lines);
            Received(TopWire(raw, lines)) == Some(headers + BLANK + CRLF + body + CRLF)
            <==> !StartsWithDot(headers) && !StartsWithDot(body)
  {
    hide Received, GetTop, ByteStuff, Stuff;
    var (h, b) := GetTop(raw, lines);
    ByteStuffIsStuff(h);
    ByteStuffIsStuff(b);
    StuffedLineEnding();
    PartsRoundTrip(h, BLANK + CRLF, b);
    assert h + BLANK + CRLF + b + CRLF == h + ((BLANK + CRLF) + (b + CRLF));
    assert TopWire(raw, lines) == Stuff(h, false) + ((BLANK + CRLF) + (Stuff(b, false) + CRLF)) + END;
  }

  /** A receiver gets the start of what it would get if it missed the end. */
  lemma ReceivedIsPrefix(s: bytes)
    ensures match Received(s + END) case None => true case Some(text) => text <= Unstuff(s, true)
  {
    hide Unstuff;
    ReceivedIsNoLonger(s);
    if FindEnd(s + END, true).Some? {
      var p := FindEnd(s + END, true).value;
      assert p <= |s|;
      assert (s + END)[..p] == s[..p] && s == s[..p] + s[p..];
      UnstuffConcat(s[..p], s[p..], true);
    }
  }

  /** Without its first dot a text is never the start of itself. */
  lemma {:induction false} DotCannotGo(h: bytes, x: bytes, y: bytes, i: nat)
    requires StartsWithDot(h) && h + x <= h[1..] + ([CR] + y) && i < |h|
    ensures h[i] == DOT
  {
    if i > 0 {
      DotCannotGo(h, x, y, i - 1);
      assert (h + x)[i - 1] == (h[1..] + ([CR] + y))[i - 1];
    }
  }

  lemma DottedHeadersDiffer(h: bytes, x: bytes, y: bytes)
    requires StartsWithDot(h)
    ensures !(h + x <= h[1..] + ([CR] + y))
  {
    assert (h + x)[|h| - 1] == h[|h| - 1] && (h[1..] + ([CR] + y))[|h| - 1] == CR;
    if h + x <= h[1..] + ([CR] + y) {
      DotCannotGo(h, x, y, |h| - 1);
    }
  }

  lemma UnstuffedTop(h: bytes, b: bytes)
    ensures Unstuff(Stuff(h, false) + ((BLANK + CRLF) + (Stuff(b, false) + CRLF)), true)
            == (if StartsWithDot(h) then h[1..] else h)
                + ((BLANK + CRLF) + ((if StartsWithDot(b) then b[1..] else b) + CRLF))
  {
    hide Stuff, Unstuff;
    StuffedLineEnding();
    var sh, sb := Stuff(h, false), Stuff(b, false);
    UnstuffConcat(sh, (BLANK + CRLF) + (sb + CRLF), true);
    UnstuffConcat(BLANK + CRLF, sb + CRLF, LineStartAfter(sh, true));
    UnstuffConcat(sb, CRLF, true);
    UnstuffUndoubled(h);
    UnstuffUndoubled(b);
  }

  lemma DottedTopDiffers(h: bytes, b: bytes, got: bytes)
    requires StartsWithDot(h) || StartsWithDot(b)
    requires got <= (if StartsWithDot(h) then h[1..] else h)
             + ((BLANK + CRLF) + ((if StartsWithDot(b) then b[1..] else b) + CRLF))
    ensures got != h + BLANK + b + CRLF
  {
    var rest := (if StartsWithDot(b) then b[1..] else b) + CRLF;
    if StartsWithDot(h) {
      DottedHeadersDiffer(h, BLANK + (b + CRLF), (BLANK + CRLF)[1..] + rest);
      assert h + BLANK + b + CRLF == h + (BLANK + (b + CRLF));
      assert h[1..] + ((BLANK + CRLF) + rest) == h[1..] + ([CR] + ((BLANK + CRLF)[1..] + rest));
    } else {
      assert (h + BLANK + b + CRLF)[|h| + 4] == DOT;
      assert (h + ((BLANK + CRLF) + rest))[|h| + 4] == CR;
    }
  }

  /** TOP never sends what section 7 of RFC 1939 asks for, the header section, an empty line and then the
      body: whatever the message is, that is not what is received. */
  lemma TopAddsEmptyLine(raw: bytes, lines: int)
    ensures var (headers, body) := GetTop(raw, lines);
            Received(TopWire(raw, lines)) != Some(headers + BLANK + body + CRLF)
  {
    hide Received, GetTop, ByteStuff, Stuff, Unstuff;
    var (h, b) := GetTop(raw, lines);
    if StartsWithDot(h) || StartsWithDot(b) {
      var s := Stuff(h, false) + ((BLANK + CRLF) + (Stuff(b, false) + CRLF));
      ByteStuffIsStuff(h);
      ByteStuffIsStuff(b);
      assert TopWire(raw, lines) == s + END;
      ReceivedIsPrefix(s);
      UnstuffedTop(h, b);
      if Received(s + END).Some? {
        DottedTopDiffers(h, b, Received(s + END).value);
      }
    } else {
      TopRoundTrip(raw, lines);
      assert |h + BLANK + CRLF + b + CRLF| == |h + BLANK + b + CRLF| + 2;
    }
  }
}
