/** Rewriting one header field of a raw message: the scan that collects the field's text, and the
    replacement of the first occurrence of that text. */
module Headers {
  import opened Basics
  import opened Bytes

  const COLON: byte := 58
  const SP: byte := 32

  // ---------------------------------------------------------------- library functions

  /** bytes.Replace with a count of one. */
  function ReplaceFirst(s: bytes, pat: bytes, new_: bytes): bytes
    requires pat != []
  {
    var i := IndexOf(s, pat);
    if i == |s| then s else s[..i] + new_ + s[i + |pat|..]
  }

  /** bufio.ScanLines: line feeds end lines, one carriage return before is dropped, and an empty last line
      is no line. */
  function ScanLines(s: bytes): seq<bytes> {
    var i := IndexLF(s);
    if s == [] then []
    else if i == |s| then [DropCR(s)]
    else [DropCR(s[..i])] + ScanLines(s[i + 1..])
  }

  function DropCR(s: bytes): bytes {
    if s != [] && s[|s| - 1] == CR then s[..|s| - 1] else s
  }

  function FoldByte(b: byte): byte {
    if 65 <= b <= 90 then b + 32 else b
  }

  /** The line starts with the field name and a colon, in any case of ASCII letters. */
  predicate HasName(line: bytes, name: bytes) {
    |line| > |name| && line[|name|] == COLON
    && forall i :: 0 <= i < |name| ==> FoldByte(line[i]) == FoldByte(name[i])
  }

  /** The same letter, or the two cases of one. */
  predicate SameLetter(a: byte, b: byte) {
    a == b || (65 <= a <= 90 && b == a + 32) || (65 <= b <= 90 && a == b + 32)
  }

  /** A line has the name exactly if it begins with it and a colon, in any case of ASCII letters. */
  lemma HasNameMeans(line: bytes, name: bytes)
    ensures HasName(line, name)
            <==> && |line| > |name| && line[|name|] == COLON
                 && forall i :: 0 <= i < |name| ==> SameLetter(line[i], name[i])
  {
    forall a: byte, b: byte ensures FoldByte(a) == FoldByte(b) <==> SameLetter(a, b) {}
  }

  predicate StartsWithSpace(line: bytes) {
    line != [] && (line[0] == SP || line[0] == 9 || line[0] == LF || line[0] == 12 || line[0] == CR)
  }

  // ---------------------------------------------------------------- the scan

  /** The lines that continue a field. */
  function Continuation(lines: seq<bytes>): bytes {
    if lines == [] || !StartsWithSpace(lines[0]) then [] else lines[0] + CRLF + Continuation(lines[1..])
  }

  /** The text of the first field with the name: its line and those that continue it. */
  function FieldText(lines: seq<bytes>, name: bytes): bytes {
    if lines == [] then []
    else if HasName(lines[0], name) then lines[0] + CRLF + Continuation(lines[1..])
    else FieldText(lines[1..], name)
  }

  function HeaderBlock(msg: bytes): bytes {
    msg[..IndexOf(msg, BLANK)]
  }

  method CollectField(msg: bytes, name: bytes) returns (hdr: bytes)
    ensures hdr == FieldText(ScanLines(HeaderBlock(msg)), name)
  {
    var headerBlock := msg[..IndexOf(msg, BLANK)];
    var lines := ScanLines(headerBlock);
    var found := false;
    hdr := [];
    for i := 0 to |lines|
      invariant !found ==> hdr == [] && FieldText(lines[i..], name) == FieldText(lines, name)
      invariant found ==> hdr + Continuation(lines[i..]) == FieldText(lines, name)
    {
      var line := lines[i];
      assert lines[i..][1..] == lines[i + 1..];
      if !found && HasName(line, name) {
        hdr := hdr + line + CRLF;
        found := true;
      } else if found && StartsWithSpace(line) {
        hdr := hdr + line + CRLF;
      } else if found {
        break;
      }
    }
  }

  // ---------------------------------------------------------------- the operations

  /** What mail.ReadMessage says: an error, or for which names it has a value. */
  datatype Parsed = Malformed | Headers(hasValue: bytes -> bool)

  datatype HeaderError = ParseError | NotLocated(name: bytes)

  function NewField(name: bytes, value: bytes): bytes {
    name + [COLON, SP] + value + CRLF
  }

  function WithHeader(msg: bytes, name: bytes, value: bytes): Result<bytes, HeaderError> {
    var hdr := FieldText(ScanLines(HeaderBlock(msg)), name);
    if hdr == [] then Err(NotLocated(name)) else Ok(ReplaceFirst(msg, hdr, NewField(name, value)))
  }

  method SetMessageHeader(msg: bytes, name: bytes, value: bytes, parsed: Parsed) returns (r: Result<bytes, HeaderError>)
    ensures r == if parsed.Malformed? then Err(ParseError)
                 else if parsed.hasValue(name) then WithHeader(msg, name, value)
                 else Ok(NewField(name, value) + msg)
  {
    if parsed.Malformed? {
      return Err(ParseError);
    }
    if parsed.hasValue(name) {
      var hdr := CollectField(msg, name);
      if |hdr| == 0 {
        return Err(NotLocated(name));
      }
      return Ok(ReplaceFirst(msg, hdr, name + [COLON, SP] + value + CRLF));
    }
    return Ok(name + [COLON, SP] + value + CRLF + msg);
  }

  /** The message without the first field of each name that the parser found a value for. */
  function WithoutHeaders(msg: bytes, names: seq<bytes>, hasValue: bytes -> bool): Result<bytes, HeaderError> {
    if names == [] then Ok(msg)
    else
      match WithoutHeaders(msg, names[..|names| - 1], hasValue)
      case Err(e) => Err(e)
      case Ok(m) =>
        var name := names[|names| - 1];
        var hdr := FieldText(ScanLines(HeaderBlock(m)), name);
        if !hasValue(name) then Ok(m) else if hdr == [] then Err(NotLocated(name)) else Ok(ReplaceFirst(m, hdr, []))
  }

  lemma {:induction false} WithoutHeadersFails(msg: bytes, names: seq<bytes>, n: nat, hasValue: bytes -> bool)
    requires n <= |names| && WithoutHeaders(msg, names[..n], hasValue).Err?
    ensures WithoutHeaders(msg, names, hasValue) == WithoutHeaders(msg, names[..n], hasValue)
    decreases |names|
  {
    if n == |names| {
      assert names[..n] == names;
    } else {
      assert names[..|names| - 1][..n] == names[..n];
      WithoutHeadersFails(msg, names[..|names| - 1], n, hasValue);
    }
  }

  lemma WithoutHeadersNext(msg: bytes, names: seq<bytes>, i: nat, next: nat, m: bytes, hasValue: bytes -> bool)
    requires i < |names| && next == i + 1 && WithoutHeaders(msg, names[..i], hasValue) == Ok(m)
    ensures WithoutHeaders(msg, names[..next], hasValue)
            == if !hasValue(names[i]) then Ok(m)
               else
                 var hdr := FieldText(ScanLines(HeaderBlock(m)), names[i]);
                 if hdr == [] then Err(NotLocated(names[i])) else Ok(ReplaceFirst(m, hdr, []))
  {
    hide FieldText, ScanLines, HeaderBlock, ReplaceFirst;
    assert names[..next][..i] == names[..i] && names[..next][i] == names[i];
  }

  method RemoveMessageHeaders(message: bytes, names: seq<bytes>, parsed: Parsed) returns (r: Result<bytes, HeaderError>)
    ensures r == if parsed.Malformed? then Err(ParseError) else WithoutHeaders(message, names, parsed.hasValue)
  {
    if parsed.Malformed? {
      return Err(ParseError);
    }
    assert names[..0] == [] && WithoutHeaders(message, [], parsed.hasValue) == Ok(message);
    hide WithoutHeaders, FieldText, ScanLines, HeaderBlock, ReplaceFirst;
    var msg := message;
    for i := 0 to |names|
      invariant WithoutHeaders(message, names[..i], parsed.hasValue) == Ok(msg)
    {
      WithoutHeadersNext(message, names, i, i + 1, msg, parsed.hasValue);
      if !parsed.hasValue(names[i]) {
        continue;
      }
      var hdr := CollectField(msg, names[i]);
      if |hdr| == 0 {
        WithoutHeadersFails(message, names, i + 1, parsed.hasValue);
        return Err(NotLocated(names[i]));
      }
      msg := ReplaceFirst(msg, hdr, []);
    }
    assert names[..|names|] == names;
    return Ok(msg);
  }

  // ---------------------------------------------------------------- when nothing happens

  lemma WithoutOne(msg: bytes, name: bytes, hasValue: bytes -> bool)
    requires hasValue(name) && FieldText(ScanLines(HeaderBlock(msg)), name) != []
    ensures WithoutHeaders(msg, [name], hasValue)
            == Ok(ReplaceFirst(msg, FieldText(ScanLines(HeaderBlock(msg)), name), []))
  {
    assert [name][..0] == [] && WithoutHeaders(msg, [], hasValue) == Ok(msg);
  }

  lemma NewFieldLength(name: bytes, value: bytes)
    ensures |NewField(name, value)| == |name| + 4 + |value|
  {
  }

  /** Long enough a value makes the new field longer than any text. */
  lemma LongValue(name: bytes, n: nat) returns (value: bytes)
    ensures |NewField(name, value)| > n
  {
    value := seq(n, k => SP);
    NewFieldLength(name, value);
  }

  lemma ReplacedLength(s: bytes, pat: bytes, new_: bytes)
    requires pat != []
    ensures IndexOf(s, pat) == |s| ==> ReplaceFirst(s, pat, new_) == s
    ensures IndexOf(s, pat) < |s| ==> |ReplaceFirst(s, pat, new_)| == |s| - |pat| + |new_|
  {
    hide IndexOf;
    if IndexOf(s, pat) < |s| {
      CutAt(s, pat, IndexOf(s, pat));
    }
  }

  /** Where the scan has found the header but its text, with the line endings of the scan, does not occur, the
      message is returned as it is, without an error; and only there. */
  lemma UnchangedExactlyWhen(msg: bytes, name: bytes, hasValue: bytes -> bool)
    requires hasValue(name) && FieldText(ScanLines(HeaderBlock(msg)), name) != []
    ensures var absent := IndexOf(msg, FieldText(ScanLines(HeaderBlock(msg)), name)) == |msg|;
            && (absent <==> forall value :: WithHeader(msg, name, value) == Ok(msg))
            && (absent <==> WithoutHeaders(msg, [name], hasValue) == Ok(msg))
  {
    hide FieldText, ScanLines, HeaderBlock, ReplaceFirst, IndexOf, WithoutHeaders, NewField;
    var hdr := FieldText(ScanLines(HeaderBlock(msg)), name);
    WithoutOne(msg, name, hasValue);
    ReplacedLength(msg, hdr, []);
    forall value {
      ReplacedLength(msg, hdr, NewField(name, value));
    }
    var long := LongValue(name, |hdr|);
    assert WithHeader(msg, name, long) == Ok(ReplaceFirst(msg, hdr, NewField(name, long)));
  }

  lemma {:induction false} TextHoldsCR(lines: seq<bytes>, name: bytes)
    requires FieldText(lines, name) != []
    ensures CR in FieldText(lines, name)
  {
    if !HasName(lines[0], name) {
      TextHoldsCR(lines[1..], name);
    } else {
      assert FieldText(lines, name)[|lines[0]|] == CR;
    }
  }

  lemma AbsentWithout(s: bytes, pat: bytes, b: byte)
    requires pat != [] && b in pat && b !in s
    ensures IndexOf(s, pat) == |s|
  {
    var i := IndexOf(s, pat);
    if i < |s| {
      CutAt(s, pat, i);
    }
  }

  /** So a message whose lines end with bare line feeds is never changed. */
  lemma BareLineFeedsAreLeft(msg: bytes, name: bytes, value: bytes, hasValue: bytes -> bool)
    requires CR !in msg && hasValue(name) && FieldText(ScanLines(HeaderBlock(msg)), name) != []
    ensures WithHeader(msg, name, value) == Ok(msg) && WithoutHeaders(msg, [name], hasValue) == Ok(msg)
  {
    TextHoldsCR(ScanLines(HeaderBlock(msg)), name);
    AbsentWithout(msg, FieldText(ScanLines(HeaderBlock(msg)), name), CR);
    UnchangedExactlyWhen(msg, name, hasValue);
  }

  /** A field that stays: removing B from "B:1" and a line feed. */
  lemma FieldIsLeft(hasValue: bytes -> bool)
    requires hasValue([66])
    ensures var b, one: byte := 66, 49;
            WithoutHeaders([b, COLON, one, LF], [[b]], hasValue) == Ok([b, COLON, one, LF])
  {
    var b, one: byte := 66, 49;
    var msg, line := [b, COLON, one, LF], [b, COLON, one];
    assert IndexOf(msg, BLANK) == |msg| by {
      AbsentWithout(msg, BLANK, CR);
    }
    assert msg[..|msg|] == msg && msg[..3] == line && msg[4..] == [];
    assert msg[0] != LF && msg[1] != LF && msg[2] != LF && msg[3] == LF;
    assert ScanLines(msg) == [DropCR(line)] + ScanLines([]) == [line];
    assert HasName(line, [b]);
    BareLineFeedsAreLeft(msg, [b], [], hasValue);
  }

  // ---------------------------------------------------------------- when removal fails

  ghost predicate NoneHasName(lines: seq<bytes>, name: bytes) {
    forall i :: 0 <= i < |lines| ==> !HasName(lines[i], name)
  }

  lemma {:induction false} NoneIsNothing(lines: seq<bytes>, name: bytes)
    ensures FieldText(lines, name) == [] <==> NoneHasName(lines, name)
  {
    if lines != [] {
      NoneIsNothing(lines[1..], name);
      assert NoneHasName(lines, name) <==> !HasName(lines[0], name) && NoneHasName(lines[1..], name) by {
        assert forall i :: 0 < i < |lines| ==> lines[i] == lines[1..][i - 1];
      }
    }
  }

  /** A removal fails exactly when the parser has a value for the name and no scanned line has the name. */
  lemma RemovalFailsExactlyWhen(msg: bytes, name: bytes, hasValue: bytes -> bool)
    ensures WithoutHeaders(msg, [name], hasValue) == Err(NotLocated(name))
            <==> hasValue(name) && NoneHasName(ScanLines(HeaderBlock(msg)), name)
  {
    hide ReplaceFirst, ScanLines, HeaderBlock;
    NoneIsNothing(ScanLines(HeaderBlock(msg)), name);
    assert [name][..0] == [] && WithoutHeaders(msg, [], hasValue) == Ok(msg);
  }

  lemma OneNameThen(msg: bytes, names: seq<bytes>, name: bytes, hasValue: bytes -> bool, m: bytes)
    requires WithoutHeaders(msg, names, hasValue) == Ok(m)
    ensures WithoutHeaders(msg, names + [name], hasValue)
            == if hasValue(name) then WithoutHeaders(m, [name], hasValue) else Ok(m)
  {
    hide FieldText, ReplaceFirst, HeaderBlock, ScanLines;
    assert (names + [name])[..|names|] == names;
    assert [name][..0] == [] && WithoutHeaders(m, [], hasValue) == Ok(m);
  }

  predicate BlankAt(s: bytes, k: nat) {
    k + 4 <= |s| && s[k] == CR && s[k + 1] == LF && s[k + 2] == CR && s[k + 3] == LF
  }

  lemma BlankMeans(s: bytes, k: nat)
    requires k <= |s|
    ensures BLANK <= s[k..] <==> BlankAt(s, k)
  {
    if k + 4 <= |s| {
      assert s[k..][..4] == [s[k], s[k + 1], s[k + 2], s[k + 3]];
    }
  }
}
