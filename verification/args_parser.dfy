/** Splitting a search string into its arguments: words, and phrases held together by quotes. */
module ArgsParser {

  /** unicode.IsSpace. */
  predicate IsSpace(c: char) {
    || '\t' <= c <= '\r' || c == ' ' || c == '\U{85}' || c == '\U{A0}' || c == '\U{1680}'
    || '\U{2000}' <= c <= '\U{200A}' || c == '\U{2028}' || c == '\U{2029}' || c == '\U{202F}'
    || c == '\U{205F}' || c == '\U{3000}'
  }

  function TrimLeft(s: string): string {
    if s != "" && IsSpace(s[0]) then TrimLeft(s[1..]) else s
  }

  function TrimRight(s: string): string {
    if s != "" && IsSpace(s[|s| - 1]) then TrimRight(s[..|s| - 1]) else s
  }

  function TrimSpace(s: string): string {
    TrimRight(TrimLeft(s))
  }

  function WithoutQuotes(s: string): string {
    if s == "" then "" else if s[0] == '"' then WithoutQuotes(s[1..]) else [s[0]] + WithoutQuotes(s[1..])
  }

  /** What the builder's contents add to the arguments. */
  function Flush(sb: string): seq<string> {
    var v := TrimSpace(WithoutQuotes(sb));
    if v == "" then [] else [v]
  }

  /** The arguments still to come, with sb already in the builder. */
  function Args(s: string, sb: string, quoted: bool): seq<string>
    decreases |s|
  {
    if s == "" then Flush(sb)
    else if s[0] == '"' then Args(s[1..], sb + [s[0]], !quoted)
    else if !quoted && s[0] == ' ' then Flush(sb) + Args(s[1..], "", false)
    else Args(s[1..], sb + [s[0]], quoted)
  }

  method Parse(s: string) returns (args: seq<string>)
    ensures args == Args(s, "", false)
  {
    args := [];
    var sb := "";
    var quoted := false;
    for i := 0 to |s|
      invariant args + Args(s[i..], sb, quoted) == Args(s, "", false)
    {
      var r := s[i];
      assert s[i..][1..] == s[i + 1..];
      if r == '"' {
        quoted := !quoted;
        sb := sb + [r];
      } else if !quoted && r == ' ' {
        var v := TrimSpace(WithoutQuotes(sb));
        if v != "" {
          args := args + [v];
        }
        sb := "";
      } else {
        sb := sb + [r];
      }
    }
    if |sb| > 0 {
      var v := TrimSpace(WithoutQuotes(sb));
      if v != "" {
        args := args + [v];
      }
    }
  }

  // ---------------------------------------------------------------- every argument is clean

  predicate IsTrimmed(s: string) {
    s != "" ==> !IsSpace(s[0]) && !IsSpace(s[|s| - 1])
  }

  predicate IsClean(s: string) {
    s != "" && IsTrimmed(s) && '"' !in s
  }

  lemma {:induction false} TrimRightKeeps(s: string)
    ensures TrimRight(s) <= s
    ensures TrimRight(s) != "" ==> !IsSpace(TrimRight(s)[|TrimRight(s)| - 1])
  {
    if s != "" && IsSpace(s[|s| - 1]) {
      TrimRightKeeps(s[..|s| - 1]);
    }
  }

  lemma {:induction false} TrimLeftKeeps(s: string)
    ensures TrimLeft(s) != "" ==> !IsSpace(TrimLeft(s)[0])
    ensures forall c :: c in TrimLeft(s) ==> c in s
  {
    if s != "" && IsSpace(s[0]) {
      TrimLeftKeeps(s[1..]);
    }
  }

  lemma {:induction false} WithoutQuotesHasNone(s: string)
    ensures '"' !in WithoutQuotes(s)
  {
    if s != "" {
      WithoutQuotesHasNone(s[1..]);
    }
  }

  lemma FlushIsClean(sb: string)
    ensures forall v :: v in Flush(sb) ==> IsClean(v)
  {
    var w := WithoutQuotes(sb);
    WithoutQuotesHasNone(sb);
    TrimLeftKeeps(w);
    TrimRightKeeps(TrimLeft(w));
  }

  /** No argument holds a quote, is empty, or has white space around it. */
  lemma {:induction false} ArgsAreClean(s: string, sb: string, quoted: bool)
    ensures forall v :: v in Args(s, sb, quoted) ==> IsClean(v)
    decreases |s|
  {
    FlushIsClean(sb);
    if s != "" {
      if s[0] == '"' {
        ArgsAreClean(s[1..], sb + [s[0]], !quoted);
      } else if !quoted && s[0] == ' ' {
        ArgsAreClean(s[1..], "", false);
      } else {
        ArgsAreClean(s[1..], sb + [s[0]], quoted);
      }
    }
  }

  // ---------------------------------------------------------------- nothing is lost

  /** The text of s apart from its white space and quotes. */
  function Letters(s: string): string {
    if s == "" then ""
    else if IsSpace(s[0]) || s[0] == '"' then Letters(s[1..])
    else [s[0]] + Letters(s[1..])
  }

  function AllLetters(args: seq<string>): string {
    if args == [] then "" else Letters(args[0]) + AllLetters(args[1..])
  }

  lemma {:induction false} LettersConcat(a: string, b: string)
    ensures Letters(a + b) == Letters(a) + Letters(b)
  {
    if a == "" {
      assert a + b == b;
    } else {
      assert (a + b)[1..] == a[1..] + b;
      LettersConcat(a[1..], b);
    }
  }

  lemma {:induction false} AllLettersConcat(a: seq<string>, b: seq<string>)
    ensures AllLetters(a + b) == AllLetters(a) + AllLetters(b)
  {
    if a == [] {
      assert a + b == b;
    } else {
      assert (a + b)[1..] == a[1..] + b;
      AllLettersConcat(a[1..], b);
    }
  }

  lemma {:induction false} TrimRightLetters(s: string)
    ensures Letters(TrimRight(s)) == Letters(s)
  {
    if s != "" && IsSpace(s[|s| - 1]) {
      var init, last := s[..|s| - 1], [s[|s| - 1]];
      TrimRightLetters(init);
      LettersConcat(init, last);
      assert s == init + last && Letters(last) == Letters(last[1..]) == "";
    }
  }

  lemma {:induction false} TrimLeftLetters(s: string)
    ensures Letters(TrimLeft(s)) == Letters(s)
  {
    if s != "" && IsSpace(s[0]) {
      TrimLeftLetters(s[1..]);
    }
  }

  lemma {:induction false} WithoutQuotesLetters(s: string)
    ensures Letters(WithoutQuotes(s)) == Letters(s)
  {
    if s != "" {
      WithoutQuotesLetters(s[1..]);
    }
  }

  lemma FlushLetters(sb: string)
    ensures AllLetters(Flush(sb)) == Letters(sb)
  {
    var w := WithoutQuotes(sb);
    WithoutQuotesLetters(sb);
    TrimLeftLetters(w);
    TrimRightLetters(TrimLeft(w));
    var v := TrimSpace(w);
    assert AllLetters([v]) == Letters(v) + AllLetters([v][1..]);
  }

  /** The arguments hold, in order, all of the input but white space and quotes. */
  lemma {:induction false} ArgsKeepLetters(s: string, sb: string, quoted: bool)
    ensures AllLetters(Args(s, sb, quoted)) == Letters(sb) + Letters(s)
    decreases |s|
  {
    hide *;
    FlushLetters(sb);
    ArgsStep(s, sb, quoted);
    LettersSkipSpace(s);
    if s == "" {
      assert Letters(sb) + "" == Letters(sb);
    } else {
      LettersMoved(sb, s);
      if s[0] == '"' {
        ArgsKeepLetters(s[1..], sb + [s[0]], !quoted);
      } else if !quoted && s[0] == ' ' {
        ArgsKeepLetters(s[1..], "", false);
        AllLettersConcat(Flush(sb), Args(s[1..], "", false));
        assert "" + Letters(s[1..]) == Letters(s[1..]);
      } else {
        ArgsKeepLetters(s[1..], sb + [s[0]], quoted);
      }
    }
  }

  lemma ArgsStep(s: string, sb: string, quoted: bool)
    ensures Args(s, sb, quoted)
            == if s == "" then Flush(sb)
               else if s[0] == '"' then Args(s[1..], sb + [s[0]], !quoted)
               else if !quoted && s[0] == ' ' then Flush(sb) + Args(s[1..], "", false)
               else Args(s[1..], sb + [s[0]], quoted)
  {
  }

  lemma LettersMoved(sb: string, s: string)
    requires s != ""
    ensures Letters(sb + [s[0]]) + Letters(s[1..]) == Letters(sb) + Letters(s)
  {
    hide Letters;
    LettersConcat(sb, [s[0]]);
    LettersConcat([s[0]], s[1..]);
    assert [s[0]] + s[1..] == s;
  }

  lemma LettersSkipSpace(s: string)
    ensures Letters("") == "" && (s != "" && s[0] == ' ' ==> Letters(s) == Letters(s[1..]))
  {
  }

  // ---------------------------------------------------------------- the round trip

  /** An argument as a user writes it: a key without spaces, and the rest in quotes. */
  datatype Phrase = Phrase(key: string, rest: string)
  {
    predicate Valid() {
      ' ' !in key && IsClean(key + rest)
    }

    function Written(): string {
      key + "\"" + rest + "\""
    }
  }

  function WrittenOut(phrases: seq<Phrase>): string {
    if phrases == [] then ""
    else if |phrases| == 1 then phrases[0].Written()
    else phrases[0].Written() + " " + WrittenOut(phrases[1..])
  }

  function Meant(phrases: seq<Phrase>): seq<string> {
    if phrases == [] then [] else [phrases[0].key + phrases[0].rest] + Meant(phrases[1..])
  }

  /** Text that does not separate goes into the builder. */
  lemma {:induction false} Absorb(t: string, s: string, sb: string, quoted: bool)
    requires '"' !in t && (quoted || ' ' !in t)
    ensures Args(t + s, sb, quoted) == Args(s, sb + t, quoted)
    decreases |t|
  {
    if t == "" {
      assert t + s == s && sb + t == sb;
    } else {
      assert (t + s)[1..] == t[1..] + s;
      assert t[0] in t;
      Absorb(t[1..], s, sb + [t[0]], quoted);
      assert (sb + [t[0]]) + t[1..] == sb + t;
    }
  }

  lemma {:induction false} WithoutQuotesConcat(a: string, b: string)
    ensures WithoutQuotes(a + b) == WithoutQuotes(a) + WithoutQuotes(b)
  {
    if a == "" {
      assert a + b == b;
    } else {
      assert (a + b)[1..] == a[1..] + b;
      WithoutQuotesConcat(a[1..], b);
    }
  }

  lemma {:induction false} WithoutQuotesSame(s: string)
    requires '"' !in s
    ensures WithoutQuotes(s) == s
  {
    if s != "" {
      assert s[0] in s && s == [s[0]] + s[1..];
      WithoutQuotesSame(s[1..]);
    }
  }

  lemma QuotesDropped(p: Phrase)
    requires '"' !in p.key && '"' !in p.rest
    ensures WithoutQuotes(p.Written()) == p.key + p.rest
  {
    var q := "\"";
    WithoutQuotesConcat(p.key + q + p.rest, q);
    WithoutQuotesConcat(p.key + q, p.rest);
    WithoutQuotesConcat(p.key, q);
    assert WithoutQuotes(q) == WithoutQuotes(q[1..]) == "";
    WithoutQuotesSame(p.key);
    WithoutQuotesSame(p.rest);
  }

  lemma FlushWritten(p: Phrase)
    requires p.Valid()
    ensures Flush(p.Written()) == [p.key + p.rest]
  {
    assert forall c :: c in p.key || c in p.rest ==> c in p.key + p.rest;
    QuotesDropped(p);
  }

  lemma PhraseRead(p: Phrase, s: string)
    requires p.Valid()
    ensures Args(p.Written() + s, "", false) == Args(s, p.Written(), false)
  {
    assert forall c :: c in p.key || c in p.rest ==> c in p.key + p.rest;
    var q := "\"";
    Absorb(p.key, q + p.rest + q + s, "", false);
    assert p.Written() + s == p.key + (q + p.rest + q + s);
    assert (q + p.rest + q + s)[1..] == p.rest + (q + s);
    assert "" + p.key == p.key;
    Absorb(p.rest, q + s, p.key + q, true);
    assert (q + s)[1..] == s;
  }

  /** Quoting phrases, or the part of each after a key, and joining them with spaces is undone by the
      parser. */
  lemma {:induction false} WrittenOutRoundTrip(phrases: seq<Phrase>)
    requires forall p :: p in phrases ==> p.Valid()
    ensures Args(WrittenOut(phrases), "", false) == Meant(phrases)
  {
    if phrases != [] {
      var p := phrases[0];
      FlushWritten(p);
      if |phrases| == 1 {
        PhraseRead(p, "");
        assert p.Written() + "" == p.Written();
        assert Meant(phrases[1..]) == [];
      } else {
        var more := WrittenOut(phrases[1..]);
        PhraseRead(p, " " + more);
        assert p.Written() + (" " + more) == p.Written() + " " + more;
        assert (" " + more)[1..] == more;
        WrittenOutRoundTrip(phrases[1..]);
      }
    }
  }
}
