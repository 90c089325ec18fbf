/** Messages as lists of header fields, and when rewriting or removing a field does exactly that. */
module HeaderFields {
  import opened Basics
  import opened Bytes
  import opened Headers

  // ---------------------------------------------------------------- messages as lists of fields

  /** A line of a header section: its text, and what ends it, which is a carriage return and a line feed, or a
      line feed alone, or nothing where the message ends. */
  datatype Line = Line(text: bytes, ending: bytes)

  /** Not empty, and without carriage returns and line feeds. */
  ghost predicate IsText(text: bytes) {
    text != [] && forall i :: 0 <= i < |text| ==> text[i] != CR && text[i] != LF
  }

  ghost predicate IsLine(l: Line) {
    IsText(l.text) && (l.ending == CRLF || l.ending == [LF] || l.ending == [])
  }

  /** Only the last line of a message may have no ending. */
  ghost predicate AreLines(lines: seq<Line>, tail: bytes) {
    && (forall i :: 0 <= i < |lines| ==> IsLine(lines[i]))
    && (forall i :: 0 <= i < |lines| && lines[i].ending == [] ==> i == |lines| - 1 && tail == [])
  }

  type Field = seq<Line>

  /** A field is a line and those folded onto it (section 2.2.3 of RFC 5322). */
  ghost predicate IsField(f: Field) {
    && f != []
    && (forall i :: 0 <= i < |f| ==> IsLine(f[i]))
    && !StartsWithSpace(f[0].text)
    && (forall i :: 0 < i < |f| ==> StartsWithSpace(f[i].text))
  }

  /** What follows the fields is nothing, or an empty line and a body. */
  ghost predicate IsTail(tail: bytes) {
    tail == [] || tail[0] == LF || CRLF <= tail
  }

  ghost predicate AreFields(fields: seq<Field>, tail: bytes) {
    && IsTail(tail)
    && (forall k :: 0 <= k < |fields| ==> IsField(fields[k]))
    && (forall k, i :: 0 <= k < |fields| && 0 <= i < |fields[k]| && fields[k][i].ending == [] ==>
                         k == |fields| - 1 && i == |fields[k]| - 1 && tail == [])
  }

  function Texts(lines: seq<Line>): seq<bytes> {
    if lines == [] then [] else [lines[0].text] + Texts(lines[1..])
  }

  /** Lines as they stand in the message. */
  function Actual(lines: seq<Line>): bytes {
    if lines == [] then [] else lines[0].text + lines[0].ending + Actual(lines[1..])
  }

  function Flatten(fields: seq<Field>): seq<Line> {
    if fields == [] then [] else fields[0] + Flatten(fields[1..])
  }

  function Message(fields: seq<Field>, tail: bytes): bytes {
    Actual(Flatten(fields)) + tail
  }

  /** Lines as the scan joins them. */
  function Render(texts: seq<bytes>): bytes {
    if texts == [] then [] else texts[0] + CRLF + Render(texts[1..])
  }

  /** What the scan collects of a field. */
  function Collected(f: Field): bytes {
    Render(Texts(f))
  }

  ghost predicate AllCRLF(lines: seq<Line>) {
    forall i :: 0 <= i < |lines| ==> lines[i].ending == CRLF
  }

  /** The first field with the name, or the number of fields when there is none. */
  function FirstField(fields: seq<Field>, name: bytes): (k: nat)
    ensures k <= |fields|
    ensures k < |fields| ==> fields[k] != [] && HasName(fields[k][0].text, name)
    ensures forall j :: 0 <= j < k ==> fields[j] == [] || !HasName(fields[j][0].text, name)
  {
    if fields == [] || (fields[0] != [] && HasName(fields[0][0].text, name)) then 0
    else 1 + FirstField(fields[1..], name)
  }

  ghost predicate IsName(name: bytes) {
    name != [] && !StartsWithSpace(name) && COLON !in name
  }

  lemma {:induction false} ActualConcat(a: seq<Line>, b: seq<Line>)
    ensures Actual(a + b) == Actual(a) + Actual(b)
  {
    if a == [] {
      assert a + b == b;
    } else {
      assert (a + b)[1..] == a[1..] + b;
      ActualConcat(a[1..], b);
    }
  }

  lemma {:induction false} TextsConcat(a: seq<Line>, b: seq<Line>)
    ensures Texts(a + b) == Texts(a) + Texts(b)
  {
    if a == [] {
      assert a + b == b;
    } else {
      assert (a + b)[1..] == a[1..] + b;
      TextsConcat(a[1..], b);
    }
  }

  lemma {:induction false} FlattenConcat(a: seq<Field>, b: seq<Field>)
    ensures Flatten(a + b) == Flatten(a) + Flatten(b)
  {
    if a == [] {
      assert a + b == b;
    } else {
      assert (a + b)[1..] == a[1..] + b;
      FlattenConcat(a[1..], b);
      assert a[0] + Flatten(a[1..] + b) == a[0] + Flatten(a[1..]) + Flatten(b);
    }
  }

  lemma {:induction false} FlattenLines(fields: seq<Field>, tail: bytes)
    requires AreFields(fields, tail)
    ensures AreLines(Flatten(fields), tail)
    ensures fields != [] ==> Flatten(fields) != [] && Flatten(fields)[0] == fields[0][0]
    ensures Flatten(fields) == [] ==> fields == []
  {
    if fields != [] {
      assert AreFields(fields[1..], tail) by {
        assert forall k :: 0 < k < |fields| ==> fields[k] == fields[1..][k - 1];
      }
      FlattenLines(fields[1..], tail);
      var f: Field, more: seq<Line> := fields[0], Flatten(fields[1..]);
      forall i: int | 0 <= i < |f + more| && (f + more)[i].ending == [] ensures i == |f + more| - 1 && tail == [] {
        assert (f + more)[i] == if i < |f| then f[i] else more[i - |f|];
      }
    }
  }

  /** Every text takes at least as much room as it stands as when it is joined with full line endings. */
  lemma {:induction false} ActualIsShorter(lines: seq<Line>)
    requires forall i :: 0 <= i < |lines| ==> IsLine(lines[i])
    ensures AllCRLF(lines) ==> Actual(lines) == Render(Texts(lines))
    ensures !AllCRLF(lines) ==> |Actual(lines)| < |Render(Texts(lines))|
    ensures |Actual(lines)| >= |lines|
  {
    if lines != [] {
      ActualIsShorter(lines[1..]);
      assert AllCRLF(lines) <==> lines[0].ending == CRLF && AllCRLF(lines[1..]) by {
        assert forall i :: 0 < i < |lines| ==> lines[i] == lines[1..][i - 1];
      }
      assert Texts(lines)[1..] == Texts(lines[1..]);
    }
  }

  // ---------------------------------------------------------------- the scan finds the lines

  lemma LastLine(text: bytes)
    requires IsText(text)
    ensures ScanLines(text) == [text]
  {
    var i := IndexLF(text);
    assert i == |text|;
  }

  lemma ScanFirstLine(text: bytes, ending: bytes, rest: bytes)
    requires IsText(text) && (ending == CRLF || ending == [LF])
    ensures ScanLines(text + ending + rest) == [text] + ScanLines(rest)
  {
    var s := text + ending + rest;
    var n := |text| + |ending| - 1;
    assert forall k :: 0 <= k < |text| ==> s[k] == text[k];
    assert s[n] == LF && (ending == CRLF ==> s[|text|] == CR);
    assert IndexLF(s) == n;
    assert s[..n] == if ending == CRLF then text + [CR] else text;
    assert (text + [CR])[..|text|] == text;
    assert DropCR(s[..n]) == text;
    assert s[n + 1..] == rest;
  }

  /** The lines that stand at the front. */
  lemma {:induction false} ScanFindsLines(lines: seq<Line>, rest: bytes)
    requires AreLines(lines, rest)
    ensures ScanLines(Actual(lines) + rest) == Texts(lines) + ScanLines(rest)
  {
    hide ScanLines;
    if lines == [] {
      assert Actual(lines) + rest == rest;
    } else {
      var l, more := lines[0], Actual(lines[1..]) + rest;
      assert Actual(lines) + rest == l.text + l.ending + more;
      if l.ending == [] {
        assert lines[1..] == [] && more == [];
        assert Actual(lines) + rest == l.text;
        LastLine(l.text);
        NothingScanned();
      } else {
        assert AreLines(lines[1..], rest) by {
          assert forall i :: 0 < i < |lines| ==> lines[i] == lines[1..][i - 1];
        }
        ScanFindsLines(lines[1..], rest);
        ScanFirstLine(l.text, l.ending, more);
        assert [l.text] + (Texts(lines[1..]) + ScanLines(rest)) == Texts(lines) + ScanLines(rest);
      }
    }
  }

  lemma NothingScanned()
    ensures ScanLines([]) == []
  {
  }

  /** After the fields the scan finds nothing, or an empty line first. */
  lemma TailIsEmptyLine(tail: bytes, n: nat)
    requires IsTail(tail) && n <= |tail|
    ensures var more := ScanLines(tail[..n]); more == [] || more[0] == []
  {
    var s := tail[..n];
    if n > 0 {
      if s[0] == LF {
        assert IndexLF(s) == 0 && s[..0] == [];
      } else if n == 1 {
        assert s == [CR] && IndexLF(s) == 1;
      } else {
        assert s[0] == CR && s[1] == LF;
        assert IndexLF(s) == 1 && s[..1] == [CR];
      }
    }
  }

  lemma BlankInFirst(text: bytes, ending: bytes, rest: bytes, k: nat)
    requires IsText(text) && (ending == CRLF || ending == [LF] || ending == [])
    requires k < |text| + |ending| && BlankAt(text + ending + rest, k)
    ensures k == |text| && ending == CRLF && rest != [] && rest[0] == CR
  {
    var s := text + ending + rest;
    assert forall i :: 0 <= i < |text| ==> s[i] == text[i];
    assert ending != [] ==> s[|text|] == ending[0];
    assert |ending| > 1 ==> s[|text| + 1] == ending[1];
    assert rest != [] ==> s[|text| + |ending|] == rest[0];
  }

  lemma BlankInRest(front: bytes, rest: bytes, k: nat)
    requires k >= |front| && BlankAt(front + rest, k)
    ensures BlankAt(rest, k - |front|)
  {
    assert forall i :: |front| <= i < |front + rest| ==> (front + rest)[i] == rest[i - |front|];
  }

  /** A blank line inside the lines is the ending of the last and an empty line after it. */
  lemma {:induction false} NoBlankInside(lines: seq<Line>, tail: bytes, k: nat)
    requires AreLines(lines, tail) && k < |Actual(lines)| && BlankAt(Actual(lines) + tail, k)
    ensures k == |Actual(lines)| - 2 && lines[|lines| - 1].ending == CRLF
  {
    hide BlankAt;
    var l, rest := lines[0], Actual(lines[1..]) + tail;
    var front := l.text + l.ending;
    assert Actual(lines) + tail == front + rest;
    assert lines[1..] != [] ==> IsLine(lines[1]) && rest[0] == lines[1].text[0];
    if k < |front| {
      BlankInFirst(l.text, l.ending, rest, k);
    } else {
      BlankInRest(front, rest, k);
      assert forall i :: 0 < i < |lines| ==> lines[i] == lines[1..][i - 1];
      NoBlankInside(lines[1..], tail, k - |front|);
    }
  }

  lemma {:induction false} ActualEnds(lines: seq<Line>)
    requires lines != [] && forall i :: 0 <= i < |lines| ==> IsLine(lines[i])
    ensures var last := lines[|lines| - 1];
            && |Actual(lines)| >= |last.ending|
            && Actual(lines)[|Actual(lines)| - |last.ending|..] == last.ending
            && Actual(lines[..|lines| - 1] + [Line(last.text, [])]) == Actual(lines)[..|Actual(lines)| - |last.ending|]
  {
    var init, last := lines[..|lines| - 1], lines[|lines| - 1];
    ActualConcat(init, [last]);
    ActualConcat(init, [Line(last.text, [])]);
    assert lines == init + [last];
    assert Actual([last]) == last.text + last.ending + Actual([last][1..]) == last.text + last.ending;
    var bare := Line(last.text, []);
    assert Actual([bare]) == bare.text + [] + Actual([bare][1..]) == bare.text;
  }

  /** The header section ends the message, or is ended by a carriage return and a line feed, twice. */
  ghost predicate IsSeparated(lines: seq<Line>, tail: bytes) {
    tail == [] || (lines != [] && lines[|lines| - 1].ending == CRLF && CRLF <= tail)
  }

  /** The lines scanned are those of the header section. More are scanned only if the section does not end as it
      should, and then the first of them is empty. */
  lemma BlockOfMessage(lines: seq<Line>, tail: bytes) returns (more: seq<bytes>)
    requires AreLines(lines, tail) && lines != [] && IsTail(tail)
    ensures ScanLines(HeaderBlock(Actual(lines) + tail)) == Texts(lines) + more
    ensures more == [] || more[0] == []
    ensures IsSeparated(lines, tail) ==> more == []
  {
    hide ScanLines, IndexOf, Texts;
    var head, last := Actual(lines), lines[|lines| - 1];
    var s := head + tail;
    var i := IndexOf(s, BLANK);
    BlankMeans(s, i);
    ActualEnds(lines);
    NothingScanned();
    if i < |head| {
      NoBlankInside(lines, tail, i);
      var cut := lines[..|lines| - 1] + [Line(last.text, [])];
      more := [];
      SameTexts(lines, cut);
      ScanFindsLines(cut, []);
      assert Actual(cut) + [] == s[..i];
    } else {
      var n := i - |head|;
      more := ScanLines(tail[..n]);
      TailIsEmptyLine(tail, n);
      assert s[..i] == head + tail[..n];
      ScanFindsLines(lines, tail[..n]);
      if IsSeparated(lines, tail) && tail != [] {
        BlankAtSeparation(lines, tail);
        BlankMeans(s, |head| - 2);
      }
    }
  }

  lemma SameTexts(lines: seq<Line>, cut: seq<Line>)
    requires lines != [] && cut == lines[..|lines| - 1] + [Line(lines[|lines| - 1].text, [])]
    ensures Texts(cut) == Texts(lines)
  {
    var init, last := lines[..|lines| - 1], lines[|lines| - 1];
    assert lines == init + [last];
    TextsConcat(init, [last]);
    TextsConcat(init, [Line(last.text, [])]);
    assert Texts([last]) == [last.text] + Texts([last][1..]);
    var bare := Line(last.text, []);
    assert Texts([bare]) == [bare.text] + Texts([bare][1..]);
  }

  lemma BlankAtSeparation(lines: seq<Line>, tail: bytes)
    requires lines != [] && (forall i :: 0 <= i < |lines| ==> IsLine(lines[i]))
    requires IsSeparated(lines, tail) && tail != []
    ensures |Actual(lines)| >= 2 && BlankAt(Actual(lines) + tail, |Actual(lines)| - 2)
  {
    ActualEnds(lines);
    var head := Actual(lines);
    var n := |head| - 2;
    assert head[n] == head[n..][0] && head[n + 1] == head[n..][1];
  }

  // ---------------------------------------------------------------- the scan finds the field

  lemma {:induction false} ContinuationOf(folded: seq<bytes>, more: seq<bytes>)
    requires forall i :: 0 <= i < |folded| ==> StartsWithSpace(folded[i])
    requires more != [] ==> !StartsWithSpace(more[0])
    ensures Continuation(folded + more) == Render(folded)
  {
    if folded == [] {
      assert folded + more == more;
    } else {
      assert (folded + more)[1..] == folded[1..] + more;
      ContinuationOf(folded[1..], more);
    }
  }

  lemma {:induction false} SkipOtherLines(lines: seq<bytes>, more: seq<bytes>, name: bytes)
    requires forall i :: 0 <= i < |lines| ==> !HasName(lines[i], name)
    ensures FieldText(lines + more, name) == FieldText(more, name)
  {
    if lines == [] {
      assert lines + more == more;
    } else {
      assert (lines + more)[1..] == lines[1..] + more;
      SkipOtherLines(lines[1..], more, name);
    }
  }

  /** A line that starts with white space does not start with a field name. */
  lemma FoldedHasNoName(line: bytes, name: bytes)
    requires IsName(name) && StartsWithSpace(line)
    ensures !HasName(line, name)
  {
    assert HasName(line, name) ==> FoldByte(line[0]) == FoldByte(name[0]);
  }

  lemma {:induction false} TextAt(lines: seq<Line>, i: nat)
    requires i < |lines|
    ensures |Texts(lines)| == |lines| && Texts(lines)[i] == lines[i].text
  {
    if i > 0 {
      TextAt(lines[1..], i - 1);
    } else if |lines| > 1 {
      TextAt(lines[1..], 0);
    }
  }

  lemma TextsOfField(f: Field)
    requires IsField(f)
    ensures var t := Texts(f);
            && |t| == |f| && t[0] == f[0].text && IsText(t[0]) && !StartsWithSpace(t[0])
            && forall i :: 0 < i < |t| ==> t[i] == f[i].text && IsText(t[i]) && StartsWithSpace(t[i])
  {
    forall i: nat | i < |f| ensures |Texts(f)| == |f| && Texts(f)[i] == f[i].text {
      TextAt(f, i);
    }
  }

  lemma FieldIsFound(t: seq<bytes>, more: seq<bytes>, name: bytes)
    requires t != [] && (forall i :: 0 < i < |t| ==> StartsWithSpace(t[i]))
    requires more != [] ==> !StartsWithSpace(more[0])
    requires IsName(name)
    ensures HasName(t[0], name) ==> FieldText(t + more, name) == Render(t)
    ensures !HasName(t[0], name) ==> FieldText(t + more, name) == FieldText(more, name)
  {
    assert (t + more)[1..] == t[1..] + more;
    if HasName(t[0], name) {
      ContinuationOf(t[1..], more);
    } else {
      forall i | 0 < i < |t| ensures !HasName(t[i], name) {
        FoldedHasNoName(t[i], name);
      }
      SkipOtherLines(t, more, name);
    }
  }

  /** The scan collects the first field with the name, folded lines included. */
  lemma {:induction false} ScanFindsField(fields: seq<Field>, name: bytes, more: seq<bytes>)
    requires (forall k :: 0 <= k < |fields| ==> IsField(fields[k])) && IsName(name)
    requires more == [] || more[0] == []
    ensures var k := FirstField(fields, name);
            FieldText(Texts(Flatten(fields)) + more, name)
            == if k < |fields| then Collected(fields[k]) else FieldText(more, name)
  {
    hide FieldText, Render, HasName;
    if fields == [] {
      assert Texts(Flatten(fields)) + more == more;
    } else {
      var f, rest := fields[0], Texts(Flatten(fields[1..]));
      TextsConcat(f, Flatten(fields[1..]));
      TextsOfField(f);
      FirstOfRest(fields[1..], more);
      FieldIsFound(Texts(f), rest + more, name);
      assert (Texts(f) + rest) + more == Texts(f) + (rest + more);
      if !HasName(f[0].text, name) {
        ScanFindsField(fields[1..], name, more);
      }
    }
  }

  lemma FirstOfRest(fields: seq<Field>, more: seq<bytes>)
    requires forall k :: 0 <= k < |fields| ==> IsField(fields[k])
    requires more == [] || more[0] == []
    ensures var t := Texts(Flatten(fields)) + more; t != [] ==> !StartsWithSpace(t[0])
  {
    if fields != [] {
      TextsConcat(fields[0], Flatten(fields[1..]));
      TextsOfField(fields[0]);
    }
  }

  // ---------------------------------------------------------------- where a field stands

  /** Where a field stands in the message. */
  function Offset(fields: seq<Field>, k: nat): nat
    requires k <= |fields|
  {
    |Actual(Flatten(fields[..k]))|
  }

  function Behind(fields: seq<Field>, k: nat, tail: bytes): bytes
    requires k < |fields|
  {
    Actual(Flatten(fields[k + 1..])) + tail
  }

  lemma MessageAround(fields: seq<Field>, k: nat, f: Field, tail: bytes)
    requires k < |fields|
    ensures Message(fields[k := f], tail) == Actual(Flatten(fields[..k])) + Actual(f) + Behind(fields, k, tail)
  {
    assert fields[k := f] == fields[..k] + ([f] + fields[k + 1..]);
    FlattenConcat(fields[..k], [f] + fields[k + 1..]);
    FlattenConcat([f], fields[k + 1..]);
    assert Flatten([f]) == f + Flatten([f][1..]) == f;
    ActualConcat(Flatten(fields[..k]), f + Flatten(fields[k + 1..]));
    ActualConcat(f, Flatten(fields[k + 1..]));
  }

  lemma MessageWithout(fields: seq<Field>, k: nat, tail: bytes)
    requires k < |fields|
    ensures Message(fields[..k] + fields[k + 1..], tail) == Actual(Flatten(fields[..k])) + Behind(fields, k, tail)
  {
    FlattenConcat(fields[..k], fields[k + 1..]);
    ActualConcat(Flatten(fields[..k]), Flatten(fields[k + 1..]));
  }

  /** A line feed is in front of every field but the first. */
  lemma BeforeField(fields: seq<Field>, k: nat, tail: bytes)
    requires AreFields(fields, tail) && k < |fields|
    ensures var before := Actual(Flatten(fields[..k])); before != [] ==> before[|before| - 1] == LF
  {
    var front := fields[..k];
    assert AreFields(front, tail) && AreFields(front, [LF]) by {
      assert forall j :: 0 <= j < k ==> front[j] == fields[j];
    }
    var lines := Flatten(front);
    FlattenLines(front, [LF]);
    if lines != [] {
      ActualEnds(lines);
      var last := lines[|lines| - 1];
      assert last.ending == CRLF || last.ending == [LF];
      assert Actual(lines)[|Actual(lines)| - 1] == Actual(lines)[|Actual(lines)| - |last.ending|..][|last.ending| - 1];
    }
  }

  /** The message, cut at a field. */
  lemma FieldAtItsPlace(fields: seq<Field>, tail: bytes, k: nat)
    requires AreFields(fields, tail) && k < |fields|
    ensures var msg, pos, f := Message(fields, tail), Offset(fields, k), Actual(fields[k]);
            && pos + |f| <= |msg| && f <= msg[pos..] && (pos > 0 ==> msg[pos - 1] == LF)
            && msg[..pos] == Actual(Flatten(fields[..k])) && msg[pos + |f|..] == Behind(fields, k, tail)
  {
    hide Flatten, Actual, AreFields, Message;
    MessageAround(fields, k, fields[k], tail);
    assert fields[k := fields[k]] == fields;
    BeforeField(fields, k, tail);
    var before, f, after := Actual(Flatten(fields[..k])), Actual(fields[k]), Behind(fields, k, tail);
    var msg := before + f + after;
    assert msg[|before|..] == f + after;
    assert msg[|before| + |f|..] == after;
  }

  /** The line that replaces a field. */
  function NewLine(name: bytes, value: bytes): Line {
    Line(name + [COLON, SP] + value, CRLF)
  }

  lemma NewLineIsNewField(name: bytes, value: bytes)
    ensures Actual([NewLine(name, value)]) == NewField(name, value)
  {
    assert [NewLine(name, value)][1..] == [];
  }

  /** The message with n octets at i replaced; as it is when i is its end. */
  function Replaced(msg: bytes, i: nat, n: nat, new_: bytes): bytes {
    if i + n <= |msg| && i < |msg| then msg[..i] + new_ + msg[i + n..] else msg
  }

  /** The message with n octets at i cut out. */
  function CutOut(msg: bytes, i: nat, n: nat): bytes {
    if i + n <= |msg| && i < |msg| then msg[..i] + msg[i + n..] else msg
  }

  lemma ReplacedIs(before: bytes, f: bytes, after: bytes, new_: bytes)
    requires f != []
    ensures Replaced(before + f + after, |before|, |f|, new_) == before + new_ + after
    ensures CutOut(before + f + after, |before|, |f|) == before + after
  {
    var msg := before + f + after;
    assert msg[..|before|] == before && msg[|before| + |f|..] == after;
  }

  /** The message with the field replaced, and with the field removed. */
  lemma MessagesMeant(fields: seq<Field>, tail: bytes, k: nat, name: bytes, value: bytes)
    requires AreFields(fields, tail) && k < |fields|
    ensures var msg, pos, own := Message(fields, tail), Offset(fields, k), |Actual(fields[k])|;
            && pos + own <= |msg| && 0 < own
            && Message(fields[..k] + fields[k + 1..], tail) == CutOut(msg, pos, own)
            && Message(fields[k := [NewLine(name, value)]], tail) == Replaced(msg, pos, own, NewField(name, value))
  {
    NamedFieldsAreLong(fields[k], name);
    hide Flatten, Actual, AreFields, Message, NewField, Behind, Replaced, CutOut;
    MessageAround(fields, k, fields[k], tail);
    assert fields[k := fields[k]] == fields;
    MessageWithout(fields, k, tail);
    MessageAround(fields, k, [NewLine(name, value)], tail);
    NewLineIsNewField(name, value);
    ReplacedIs(Actual(Flatten(fields[..k])), Actual(fields[k]), Behind(fields, k, tail), NewField(name, value));
  }

  lemma FieldTextOfMessage(fields: seq<Field>, tail: bytes, name: bytes)
    requires AreFields(fields, tail) && IsName(name) && FirstField(fields, name) < |fields|
    ensures FieldText(ScanLines(HeaderBlock(Message(fields, tail))), name)
            == Collected(fields[FirstField(fields, name)])
  {
    FlattenLines(fields, tail);
    hide Flatten, FieldText, ScanLines, HeaderBlock, Texts, Actual, FirstField, Collected;
    var more := BlockOfMessage(Flatten(fields), tail);
    ScanFindsField(fields, name, more);
  }

  /** A name that no field has is not located, if the header section ends as it should. */
  lemma NoFieldNoText(fields: seq<Field>, tail: bytes, name: bytes)
    requires AreFields(fields, tail) && fields != [] && IsSeparated(Flatten(fields), tail)
    requires IsName(name) && FirstField(fields, name) == |fields|
    ensures NoneHasName(ScanLines(HeaderBlock(Message(fields, tail))), name)
  {
    FlattenLines(fields, tail);
    NoneIsNothing(ScanLines(HeaderBlock(Message(fields, tail))), name);
    hide Flatten, ScanLines, HeaderBlock, Texts, Actual, FirstField, Collected, NoneHasName;
    var more := BlockOfMessage(Flatten(fields), tail);
    ScanFindsField(fields, name, more);
  }

  lemma NamedFieldsAreLong(f: Field, name: bytes)
    requires IsField(f)
    ensures Collected(f) != [] && Actual(f) != []
    ensures HasName(f[0].text, name) ==> |Collected(f)| > |name| + 2
    ensures AllCRLF(f) ==> Actual(f) == Collected(f)
    ensures !AllCRLF(f) ==> |Actual(f)| < |Collected(f)|
  {
    ActualIsShorter(f);
  }

  // ---------------------------------------------------------------- exactly when the rewrite is right

  /** Inside the text of a field every further line starts with white space. */
  lemma {:induction false} FoldedLineStart(texts: seq<bytes>, d: nat)
    requires forall i :: 0 <= i < |texts| ==> IsText(texts[i])
    requires forall i :: 0 < i < |texts| ==> StartsWithSpace(texts[i])
    requires 0 < d < |Render(texts)| && Render(texts)[d - 1] == LF
    ensures StartsWithSpace([Render(texts)[d]])
  {
    var text, rest := texts[0], Render(texts[1..]);
    assert texts[1..] != [] ==> rest[0] == texts[1][0];
    if d > |text| + 2 {
      FoldedLineStart(texts[1..], d - |text| - 2);
    }
  }

  /** An earlier occurrence of a field's text does not reach into the field. */
  lemma NoOverlap(msg: bytes, f: Field, i: nat, pos: nat)
    requires IsField(f) && i < pos <= |msg|
    requires Collected(f) <= msg[i..] && Collected(f) <= msg[pos..]
    requires msg[pos - 1] == LF
    ensures i + |Collected(f)| <= pos
  {
    var t, hdr := Texts(f), Collected(f);
    TextsOfField(f);
    assert hdr[0] == t[0][0] && !StartsWithSpace([hdr[0]]);
    if pos < i + |hdr| {
      assert msg[pos - 1] == msg[i..][pos - 1 - i] == hdr[pos - 1 - i];
      assert msg[pos] == msg[i..][pos - i] == hdr[pos - i];
      assert msg[pos] == msg[pos..][0] == hdr[0];
      FoldedLineStart(t, pos - i);
    }
  }

  /** Replacing an earlier occurrence differs from replacing the one at pos, for some new value. */
  lemma EarlierReplacementDiffers(msg: bytes, hdr: bytes, name: bytes, i: nat, pos: nat) returns (value: bytes)
    requires |hdr| > |name| + 2 && i + |hdr| <= pos <= |msg| - |hdr|
    requires hdr <= msg[i..]
    ensures msg[..i] + NewField(name, value) + msg[i + |hdr|..]
            != msg[..pos] + NewField(name, value) + msg[pos + |hdr|..]
  {
    var j := |name| + 2;
    var b: byte := if hdr[j] == 0 then 1 else 0;
    value := [b];
    var new_ := NewField(name, value);
    assert new_[j] == b;
    assert (msg[..i] + new_ + msg[i + |hdr|..])[i + j] == b;
    assert (msg[..pos] + new_ + msg[pos + |hdr|..])[i + j] == msg[i + j] == msg[i..][j] == hdr[j];
  }

  lemma ReplaceFirstIs(msg: bytes, hdr: bytes, new_: bytes)
    requires hdr != []
    ensures ReplaceFirst(msg, hdr, new_) == Replaced(msg, IndexOf(msg, hdr), |hdr|, new_)
    ensures ReplaceFirst(msg, hdr, []) == CutOut(msg, IndexOf(msg, hdr), |hdr|)
  {
    hide IndexOf;
    var i := IndexOf(msg, hdr);
    if i < |msg| {
      CutAt(msg, hdr, i);
      assert msg[..i] + [] == msg[..i];
    }
  }

  /** What the two operations do, in terms of where the collected text first occurs. */
  lemma WhatIsDone(msg: bytes, name: bytes, value: bytes, hasValue: bytes -> bool, hdr: bytes)
    requires hasValue(name) && hdr != [] && FieldText(ScanLines(HeaderBlock(msg)), name) == hdr
    ensures WithoutHeaders(msg, [name], hasValue) == Ok(CutOut(msg, IndexOf(msg, hdr), |hdr|))
    ensures WithHeader(msg, name, value) == Ok(Replaced(msg, IndexOf(msg, hdr), |hdr|, NewField(name, value)))
  {
    hide FieldText, ScanLines, HeaderBlock, WithoutHeaders, IndexOf, NewField, Replaced, CutOut, ReplaceFirst;
    WithoutOne(msg, name, hasValue);
    ReplaceFirstIs(msg, hdr, NewField(name, value));
  }

  /** The text of a field with full line endings is found at its own place or earlier. */
  lemma FoundNoLater(fields: seq<Field>, tail: bytes, k: nat)
    requires AreFields(fields, tail) && k < |fields| && AllCRLF(fields[k])
    ensures var msg, pos, hdr := Message(fields, tail), Offset(fields, k), Collected(fields[k]);
            && hdr != [] && hdr == Actual(fields[k]) && pos + |hdr| <= |msg| && hdr <= msg[pos..]
            && IndexOf(msg, hdr) <= pos && (pos > 0 ==> msg[pos - 1] == LF)
  {
    hide Message, Offset, Collected, Actual, AllCRLF;
    FieldAtItsPlace(fields, tail, k);
    NamedFieldsAreLong(fields[k], []);
  }

  lemma LengthsDiffer(msg: bytes, new_: bytes, i: nat, n: nat, pos: nat, own: nat)
    requires pos + own <= |msg| && 0 < own < n
    ensures |new_| > own ==> Replaced(msg, i, n, new_) != Replaced(msg, pos, own, new_)
    ensures CutOut(msg, i, n) != CutOut(msg, pos, own)
  {
    assert |Replaced(msg, pos, own, new_)| == |msg| - own + |new_|;
    assert |Replaced(msg, i, n, new_)| == if i + n <= |msg| && i < |msg| then |msg| - n + |new_| else |msg|;
    assert |CutOut(msg, pos, own)| == |msg| - own;
    assert |CutOut(msg, i, n)| == if i + n <= |msg| && i < |msg| then |msg| - n else |msg|;
  }

  /** The field's text stands in the message as the scan collects it, and nowhere before. */
  ghost predicate StandsFirst(fields: seq<Field>, tail: bytes, k: nat)
    requires k < |fields| && Collected(fields[k]) != []
  {
    AllCRLF(fields[k]) && IndexOf(Message(fields, tail), Collected(fields[k])) == Offset(fields, k)
  }

  lemma RewriteGoesWrong(fields: seq<Field>, tail: bytes, name: bytes) returns (value: bytes)
    requires AreFields(fields, tail) && IsName(name) && FirstField(fields, name) < |fields|
    requires Collected(fields[FirstField(fields, name)]) != [] && !StandsFirst(fields, tail, FirstField(fields, name))
    ensures WithHeader(Message(fields, tail), name, value)
            != Ok(Message(fields[FirstField(fields, name) := [NewLine(name, value)]], tail))
  {
    var k := FirstField(fields, name);
    NamedFieldsAreLong(fields[k], name);
    hide Message, Offset, Collected, Actual, AllCRLF, IndexOf, FirstField, NewField, NewLine, WithHeader, HasName,
      Replaced, CutOut, AreFields, IsField;
    var msg, hdr, pos, own := Message(fields, tail), Collected(fields[k]), Offset(fields, k), |Actual(fields[k])|;
    var i := IndexOf(msg, hdr);
    if AllCRLF(fields[k]) {
      FoundNoLater(fields, tail, k);
      value := EarlierRewriteDiffers(msg, fields[k], name, i, pos);
      MessagesMeant(fields, tail, k, name, value);
    } else {
      value := LongValue(name, own);
      MessagesMeant(fields, tail, k, name, value);
      LengthsDiffer(msg, NewField(name, value), i, |hdr|, pos, own);
    }
    FieldTextOfMessage(fields, tail, name);
    WhatIsDone(msg, name, value, n => true, hdr);
  }

  lemma EarlierRewriteDiffers(msg: bytes, f: Field, name: bytes, i: nat, pos: nat) returns (value: bytes)
    requires IsField(f) && Collected(f) != [] && |Collected(f)| > |name| + 2
    requires i == IndexOf(msg, Collected(f)) && i < pos && pos + |Collected(f)| <= |msg| && Collected(f) <= msg[pos..]
    requires msg[pos - 1] == LF
    ensures Replaced(msg, i, |Collected(f)|, NewField(name, value))
            != Replaced(msg, pos, |Collected(f)|, NewField(name, value))
  {
    hide Collected, IndexOf, NewField;
    NoOverlap(msg, f, i, pos);
    value := EarlierReplacementDiffers(msg, Collected(f), name, i, pos);
  }

  /** When the field's text stands in the message and first occurs at its own place, exactly that field is
      replaced: all other fields, their order and the body stay. */
  lemma FieldIsReplaced(fields: seq<Field>, tail: bytes, name: bytes, value: bytes)
    requires AreFields(fields, tail) && IsName(name) && FirstField(fields, name) < |fields|
    requires Collected(fields[FirstField(fields, name)]) != [] && StandsFirst(fields, tail, FirstField(fields, name))
    ensures WithHeader(Message(fields, tail), name, value)
            == Ok(Message(fields[FirstField(fields, name) := [NewLine(name, value)]], tail))
  {
    hide Message, Offset, Collected, Actual, AllCRLF, IndexOf, FirstField, NewField, NewLine, WithHeader,
      Replaced, CutOut, AreFields, IsField;
    var k := FirstField(fields, name);
    var msg, hdr := Message(fields, tail), Collected(fields[k]);
    FieldTextOfMessage(fields, tail, name);
    WhatIsDone(msg, name, value, n => true, hdr);
    MessagesMeant(fields, tail, k, name, value);
    FoundNoLater(fields, tail, k);
  }

  /** The rewrite is right for every new value if and only if all lines of the field end with a carriage return
      and a line feed, and the field's text occurs nowhere before the field. */
  lemma RewriteIsRightExactlyWhen(fields: seq<Field>, tail: bytes, name: bytes)
    requires AreFields(fields, tail) && IsName(name) && FirstField(fields, name) < |fields|
    ensures var k := FirstField(fields, name);
            && Collected(fields[k]) != []
            && ((forall value :: WithHeader(Message(fields, tail), name, value)
                                 == Ok(Message(fields[k := [NewLine(name, value)]], tail)))
                <==> StandsFirst(fields, tail, k))
  {
    var k := FirstField(fields, name);
    NamedFieldsAreLong(fields[k], name);
    hide WithHeader, Message, FirstField, Collected, StandsFirst;
    if StandsFirst(fields, tail, k) {
      forall value ensures WithHeader(Message(fields, tail), name, value)
                           == Ok(Message(fields[k := [NewLine(name, value)]], tail)) {
        FieldIsReplaced(fields, tail, name, value);
      }
    } else {
      var value := RewriteGoesWrong(fields, tail, name);
    }
  }

  /** A header that is not there becomes the first field. */
  lemma FieldIsAdded(fields: seq<Field>, tail: bytes, name: bytes, value: bytes)
    ensures NewField(name, value) + Message(fields, tail) == Message([[NewLine(name, value)]] + fields, tail)
  {
    var line := NewLine(name, value);
    FlattenConcat([[line]], fields);
    assert Flatten([[line]]) == [line] + Flatten([[line]][1..]) == [line];
    ActualConcat([line], Flatten(fields));
    NewLineIsNewField(name, value);
  }

  // ---------------------------------------------------------------- exactly when the removal is right

  /** From i to pos, and n octets further, the message repeats itself with the period n. */
  predicate Repeats(msg: bytes, i: nat, pos: nat, n: nat) {
    i <= pos && pos + n <= |msg| && msg[i..pos] == msg[i + n..pos + n]
  }

  /** Cutting n octets at i and cutting them at pos leave the same exactly when what is between repeats. */
  lemma CutsAgree(msg: bytes, n: nat, i: nat, pos: nat)
    requires i <= pos && pos + n <= |msg| && n > 0
    ensures CutOut(msg, i, n) == CutOut(msg, pos, n) <==> Repeats(msg, i, pos, n)
  {
    var left, right := CutOut(msg, i, n), CutOut(msg, pos, n);
    if left == right {
      forall k | 0 <= k < pos - i ensures msg[i..pos][k] == msg[i + n..pos + n][k] {
        assert left[i + k] == right[i + k];
      }
    }
    if msg[i..pos] == msg[i + n..pos + n] {
      forall k | 0 <= k < |left| ensures left[k] == right[k] {
        assert i <= k < pos ==> msg[i..pos][k - i] == msg[i + n..pos + n][k - i];
      }
    }
  }

  /** All lines of the field end as the scan assumes, and from the first occurrence of the field's text to its own
      place the message repeats itself with the length of that text as the period. */
  ghost predicate CutIsRight(fields: seq<Field>, tail: bytes, k: nat)
    requires k < |fields| && Collected(fields[k]) != []
  {
    var msg, hdr := Message(fields, tail), Collected(fields[k]);
    AllCRLF(fields[k]) && Repeats(msg, IndexOf(msg, hdr), Offset(fields, k), |hdr|)
  }

  lemma CutIsRightMeans(fields: seq<Field>, tail: bytes, k: nat)
    requires AreFields(fields, tail) && k < |fields|
    ensures var msg, hdr := Message(fields, tail), Collected(fields[k]);
            && hdr != []
            && (CutIsRight(fields, tail, k)
                <==> CutOut(msg, IndexOf(msg, hdr), |hdr|) == CutOut(msg, Offset(fields, k), |Actual(fields[k])|))
  {
    NamedFieldsAreLong(fields[k], []);
    hide Message, Offset, Collected, Actual, AllCRLF, IndexOf, CutOut, AreFields, IsField, Repeats;
    var msg, hdr, pos, own := Message(fields, tail), Collected(fields[k]), Offset(fields, k), |Actual(fields[k])|;
    MessagesMeant(fields, tail, k, [], []);
    if AllCRLF(fields[k]) {
      FoundNoLater(fields, tail, k);
      CutsAgree(msg, |hdr|, IndexOf(msg, hdr), pos);
    } else {
      LengthsDiffer(msg, [], IndexOf(msg, hdr), |hdr|, pos, own);
    }
  }

  /** The removal of a field is right if and only if its text stands in the message, with full line endings, and the
      message repeats itself from the first occurrence of the text to the field's own place. In particular it is
      right when the text first occurs there. */
  lemma RemovalIsRightExactlyWhen(fields: seq<Field>, tail: bytes, name: bytes, hasValue: bytes -> bool)
    requires AreFields(fields, tail) && IsName(name) && hasValue(name) && FirstField(fields, name) < |fields|
    ensures var k := FirstField(fields, name);
            && Collected(fields[k]) != []
            && ((WithoutHeaders(Message(fields, tail), [name], hasValue)
                 == Ok(Message(fields[..k] + fields[k + 1..], tail)))
                <==> CutIsRight(fields, tail, k))
  {
    hide *;
    var k := FirstField(fields, name);
    CutIsRightMeans(fields, tail, k);
    FieldTextOfMessage(fields, tail, name);
    WhatIsDone(Message(fields, tail), name, [], hasValue, Collected(fields[k]));
    MessagesMeant(fields, tail, k, name, []);
  }

  /** When the field's text first occurs at its own place, exactly that field is removed. */
  lemma FieldIsRemoved(fields: seq<Field>, tail: bytes, name: bytes, hasValue: bytes -> bool)
    requires AreFields(fields, tail) && IsName(name) && hasValue(name) && FirstField(fields, name) < |fields|
    requires Collected(fields[FirstField(fields, name)]) != [] && StandsFirst(fields, tail, FirstField(fields, name))
    ensures var k := FirstField(fields, name);
            WithoutHeaders(Message(fields, tail), [name], hasValue) == Ok(Message(fields[..k] + fields[k + 1..], tail))
  {
    hide Message, Offset, Collected, Actual, AllCRLF, IndexOf, FirstField, WithoutHeaders;
    FoundNoLater(fields, tail, FirstField(fields, name));
    RemovalIsRightExactlyWhen(fields, tail, name, hasValue);
  }

  // ---------------------------------------------------------------- a list of names

  /** Taking out the first field of each name that has a value, one name after another, until a name is not
      there. */
  function Remaining(fields: seq<Field>, names: seq<bytes>, hasValue: bytes -> bool): Result<seq<Field>, HeaderError> {
    if names == [] then Ok(fields)
    else
      match Remaining(fields, names[..|names| - 1], hasValue)
      case Err(e) => Err(e)
      case Ok(fs) => WithoutFirst(fs, names[|names| - 1], hasValue)
  }

  function WithoutFirst(fields: seq<Field>, name: bytes, hasValue: bytes -> bool): Result<seq<Field>, HeaderError> {
    var k := FirstField(fields, name);
    if !hasValue(name) then Ok(fields)
    else if k == |fields| then Err(NotLocated(name))
    else Ok(fields[..k] + fields[k + 1..])
  }

  /** The message that remains. */
  function Meant(fields: Result<seq<Field>, HeaderError>, tail: bytes): Result<bytes, HeaderError> {
    match fields
    case Err(e) => Err(e)
    case Ok(fs) => Ok(Message(fs, tail))
  }

  /** One removal is right: where the field is there, it is cut out where it stands, or what is cut out comes to the
      same; where it is not, nothing with its name is scanned. */
  ghost predicate StepIsRight(fields: seq<Field>, tail: bytes, name: bytes, hasValue: bytes -> bool) {
    hasValue(name) ==>
      var k := FirstField(fields, name);
      if k < |fields| then Collected(fields[k]) != [] && CutIsRight(fields, tail, k)
      else NoneHasName(ScanLines(HeaderBlock(Message(fields, tail))), name)
  }

  lemma StepIsRightMeans(fields: seq<Field>, tail: bytes, name: bytes, hasValue: bytes -> bool)
    requires AreFields(fields, tail) && IsName(name)
    ensures StepIsRight(fields, tail, name, hasValue)
            <==> (if hasValue(name) then WithoutHeaders(Message(fields, tail), [name], hasValue)
                  else Ok(Message(fields, tail)))
                 == Meant(WithoutFirst(fields, name, hasValue), tail)
  {
    hide Message, WithoutHeaders, FirstField, Collected, CutIsRight, NoneHasName, ScanLines, HeaderBlock, AreFields;
    if hasValue(name) {
      if FirstField(fields, name) < |fields| {
        RemovalIsRightExactlyWhen(fields, tail, name, hasValue);
      } else {
        RemovalFailsExactlyWhen(Message(fields, tail), name, hasValue);
      }
    }
  }

  lemma WithoutFirstKeeps(fields: seq<Field>, tail: bytes, name: bytes, hasValue: bytes -> bool)
    requires AreFields(fields, tail)
    ensures var r := WithoutFirst(fields, name, hasValue); r.Ok? ==> AreFields(r.value, tail)
  {
    hide FirstField, IsField, IsTail;
    var k, r := FirstField(fields, name), WithoutFirst(fields, name, hasValue);
    if r.Ok? && r.value != fields {
      assert forall j :: 0 <= j < |r.value| ==> r.value[j] == fields[if j < k then j else j + 1];
    }
  }

  lemma {:induction false} RemainingKeeps(fields: seq<Field>, tail: bytes, names: seq<bytes>, hasValue: bytes -> bool)
    requires AreFields(fields, tail)
    ensures var r := Remaining(fields, names, hasValue); r.Ok? ==> AreFields(r.value, tail)
  {
    hide AreFields;
    if names != [] {
      var before := names[..|names| - 1];
      RemainingKeeps(fields, tail, before, hasValue);
      if Remaining(fields, before, hasValue).Ok? {
        WithoutFirstKeeps(Remaining(fields, before, hasValue).value, tail, names[|names| - 1], hasValue);
      }
    }
  }

  /** After n names the result is what it should be: the first field of each is gone, or a name is reported. */
  ghost predicate RightSoFar(fields: seq<Field>, tail: bytes, names: seq<bytes>, hasValue: bytes -> bool, n: nat)
    requires n <= |names|
  {
    WithoutHeaders(Message(fields, tail), names[..n], hasValue) == Meant(Remaining(fields, names[..n], hasValue), tail)
  }

  ghost predicate IsRightAt(fields: seq<Field>, tail: bytes, names: seq<bytes>, hasValue: bytes -> bool, i: nat)
    requires i < |names|
  {
    match Remaining(fields, names[..i], hasValue)
    case Err(_) => true
    case Ok(fs) => StepIsRight(fs, tail, names[i], hasValue)
  }

  lemma NothingRemoved(fields: seq<Field>, tail: bytes, names: seq<bytes>, hasValue: bytes -> bool)
    ensures RightSoFar(fields, tail, names, hasValue, 0)
  {
    assert names[..0] == [];
  }

  lemma RemainingNext(fields: seq<Field>, names: seq<bytes>, hasValue: bytes -> bool, i: nat, next: nat)
    requires i < |names| && next == i + 1
    ensures Remaining(fields, names[..next], hasValue)
            == match Remaining(fields, names[..i], hasValue)
               case Err(e) => Err(e)
               case Ok(fs) => WithoutFirst(fs, names[i], hasValue)
  {
    hide WithoutFirst;
    assert names[..next][..i] == names[..i] && names[..next][i] == names[i];
  }

  lemma NextName(fields: seq<Field>, tail: bytes, names: seq<bytes>, hasValue: bytes -> bool, i: nat, next: nat)
    requires AreFields(fields, tail) && i < |names| && IsName(names[i]) && next == i + 1
    requires RightSoFar(fields, tail, names, hasValue, i)
    ensures RightSoFar(fields, tail, names, hasValue, next) <==> IsRightAt(fields, tail, names, hasValue, i)
  {
    hide WithoutHeaders, Message, Remaining, StepIsRight, WithoutFirst, AreFields, IsName;
    assert names[..next] == names[..i] + [names[i]] && names[..next][..i] == names[..i];
    RemainingKeeps(fields, tail, names[..i], hasValue);
    RemainingNext(fields, names, hasValue, i, next);
    match Remaining(fields, names[..i], hasValue) {
      case Err(_) =>
        WithoutHeadersFails(Message(fields, tail), names[..next], i, hasValue);
      case Ok(fs) =>
        OneNameThen(Message(fields, tail), names[..i], names[i], hasValue, Message(fs, tail));
        StepIsRightMeans(fs, tail, names[i], hasValue);
    }
  }

  lemma {:induction false} StepByStep(
    fields: seq<Field>, tail: bytes, names: seq<bytes>, hasValue: bytes -> bool, n: nat)
    requires AreFields(fields, tail) && n <= |names|
    requires forall i :: 0 <= i < |names| ==> IsName(names[i])
    requires forall i :: 0 <= i < |names| ==> IsRightAt(fields, tail, names, hasValue, i)
    ensures RightSoFar(fields, tail, names, hasValue, n)
  {
    hide *;
    if n == 0 {
      NothingRemoved(fields, tail, names, hasValue);
    } else {
      StepByStep(fields, tail, names, hasValue, n - 1);
      NextName(fields, tail, names, hasValue, n - 1, n);
    }
  }

  /** For every list of names: after each of them the result is what it should be, the message without the first
      field of each so far or the first name that is not there, if and only if each step is right where it is
      made. */
  lemma NamesAreRemovedExactlyWhen(fields: seq<Field>, tail: bytes, names: seq<bytes>, hasValue: bytes -> bool)
    requires AreFields(fields, tail)
    requires forall i :: 0 <= i < |names| ==> IsName(names[i])
    ensures (forall n :: 0 <= n <= |names| ==> RightSoFar(fields, tail, names, hasValue, n))
            <==> (forall i :: 0 <= i < |names| ==> IsRightAt(fields, tail, names, hasValue, i))
  {
    hide *;
    if forall n :: 0 <= n <= |names| ==> RightSoFar(fields, tail, names, hasValue, n) {
      forall i | 0 <= i < |names| ensures IsRightAt(fields, tail, names, hasValue, i) {
        NextName(fields, tail, names, hasValue, i, i + 1);
      }
    }
    if forall i :: 0 <= i < |names| ==> IsRightAt(fields, tail, names, hasValue, i) {
      forall n | 0 <= n <= |names| ensures RightSoFar(fields, tail, names, hasValue, n) {
        StepByStep(fields, tail, names, hasValue, n);
      }
    }
  }

  /** A list that names a field more often than it occurs is reported, when the header section ends as it should and
      other fields are left. */
  lemma MissingNameIsReported(fields: seq<Field>, tail: bytes, names: seq<bytes>, hasValue: bytes -> bool, n: nat)
    requires AreFields(fields, tail) && n < |names| && IsName(names[n]) && hasValue(names[n])
    requires RightSoFar(fields, tail, names, hasValue, n) && Remaining(fields, names[..n], hasValue).Ok?
    requires var fs := Remaining(fields, names[..n], hasValue).value;
             fs != [] && IsSeparated(Flatten(fs), tail) && FirstField(fs, names[n]) == |fs|
    ensures WithoutHeaders(Message(fields, tail), names, hasValue) == Err(NotLocated(names[n]))
  {
    hide WithoutHeaders, Message, Remaining, FirstField, AreFields, NoneHasName, ScanLines, HeaderBlock, IsSeparated,
      Flatten;
    var fs := Remaining(fields, names[..n], hasValue).value;
    RemainingKeeps(fields, tail, names[..n], hasValue);
    NoFieldNoText(fs, tail, names[n]);
    RemovalFailsExactlyWhen(Message(fs, tail), names[n], hasValue);
    OneNameThen(Message(fields, tail), names[..n], names[n], hasValue, Message(fs, tail));
    assert names[..n] + [names[n]] == names[..n + 1];
    WithoutHeadersFails(Message(fields, tail), names, n + 1, hasValue);
  }

  // ---------------------------------------------------------------- a wrong field

  /** Two fields of one line each. */
  lemma TwoFields(first: bytes, second: bytes)
    ensures Message([[Line(first, CRLF)], [Line(second, CRLF)]], []) == first + CRLF + (second + CRLF)
  {
    var a, b := Line(first, CRLF), Line(second, CRLF);
    FlattenConcat([[a]], [[b]]);
    assert [[a], [b]] == [[a]] + [[b]];
    assert Flatten([[a]]) == [a] + Flatten([[a]][1..]) == [a];
    assert Flatten([[b]]) == [b] + Flatten([[b]][1..]) == [b];
    ActualConcat([a], [b]);
    assert Actual([a]) == first + CRLF + Actual([a][1..]) == first + CRLF;
    assert Actual([b]) == second + CRLF + Actual([b][1..]) == second + CRLF;
    assert first + CRLF + (second + CRLF) + [] == first + CRLF + (second + CRLF);
  }

  /** A field whose text ends an earlier field: "XB:1", "B:1". Setting B to 2 rewrites the wrong field. */
  lemma WrongFieldIsRewritten()
    ensures var x, b, colon, one, two: byte := 88, 66, 58, 49, 50;
            var fields := [[Line([x, b, colon, one], CRLF)], [Line([b, colon, one], CRLF)]];
            && AreFields(fields, []) && FirstField(fields, [b]) == 1
            && WithHeader(Message(fields, []), [b], [two])
               == Ok([x] + NewField([b], [two]) + ([b, colon, one] + CRLF))
  {
    var x, b, colon, one, two: byte := 88, 66, 58, 49, 50;
    var second := [b, colon, one];
    assert [x] + second == [x, b, colon, one];
    FirstOfTwo([x] + second, second, [b]);
    TailIsRewritten([x], second, [b], [two]);
  }

  /** When the second line is the end of the first, it is the first that is rewritten. */
  lemma TailIsRewritten(head: bytes, line: bytes, name: bytes, value: bytes)
    requires |head| == 1 && line != [] && head[0] != line[0] && IsName(name)
    requires var fields := [[Line(head + line, CRLF)], [Line(line, CRLF)]];
             AreFields(fields, []) && FirstField(fields, name) == 1
    ensures WithHeader(Message([[Line(head + line, CRLF)], [Line(line, CRLF)]], []), name, value)
            == Ok(head + NewField(name, value) + (line + CRLF))
  {
    hide FieldText, ScanLines, Flatten, FirstField, AreFields, IsName, HeaderBlock, Message, WithHeader, NewField;
    var fields := [[Line(head + line, CRLF)], [Line(line, CRLF)]];
    var hdr := line + CRLF;
    var msg := head + hdr + hdr;
    TwoFields(head + line, line);
    assert Message(fields, []) == msg;
    FieldTextOfMessage(fields, [], name);
    CollectedOne(line);
    FoundAtOne(head, hdr);
    WhatIsDone(msg, name, value, n => true, hdr);
    ReplacedIs(head, hdr, hdr, NewField(name, value));
  }

  lemma CollectedOne(line: bytes)
    ensures Collected([Line(line, CRLF)]) == line + CRLF
  {
    var f := [Line(line, CRLF)];
    assert Texts(f) == [line] + Texts(f[1..]) == [line];
    assert Render([line]) == line + CRLF + Render([line][1..]) == line + CRLF;
  }

  lemma FoundAtOne(head: bytes, hdr: bytes)
    requires |head| == 1 && hdr != [] && head[0] != hdr[0]
    ensures IndexOf(head + hdr + hdr, hdr) == 1
  {
    var msg := head + hdr + hdr;
    assert msg[1..] == hdr + hdr;
    assert msg[0] == head[0];
  }

  lemma FirstOfTwo(first: bytes, second: bytes, name: bytes)
    requires !HasName(first, name) && HasName(second, name)
    ensures FirstField([[Line(first, CRLF)], [Line(second, CRLF)]], name) == 1
  {
    var f, g := [Line(first, CRLF)], [Line(second, CRLF)];
    assert [f, g][1..] == [g];
  }
}
