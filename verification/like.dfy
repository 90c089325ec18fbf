/** SQL LIKE with an escape character, and the two escapings a search word goes through before it becomes
    a LIKE pattern. */
module Like {

  // ---------------------------------------------------------------- LIKE

  /** SQLite's LIKE folds the case of ASCII letters only. */
  function Fold(c: char): char {
    if 'A' <= c <= 'Z' then (c as int + 32) as char else c
  }

  /** Two characters fold to the same exactly if they are the same or the two cases of one ASCII letter. */
  lemma FoldMeans(a: char, b: char)
    ensures Fold(a) == Fold(b)
            <==> || a == b
                 || ('A' <= a <= 'Z' && b as int == a as int + 32)
                 || ('A' <= b <= 'Z' && a as int == b as int + 32)
  {
  }

  function Lower(s: string): string {
    if s == "" then "" else [Fold(s[0])] + Lower(s[1..])
  }

  lemma {:induction false} LowerLength(s: string)
    ensures |Lower(s)| == |s|
  {
    if s != "" {
      LowerLength(s[1..]);
    }
  }

  ghost predicate FoldEq(a: string, b: string) {
    |a| == |b| && forall i :: 0 <= i < |a| ==> Fold(a[i]) == Fold(b[i])
  }

  /** s LIKE p ESCAPE '\' */
  predicate Matches(p: string, s: string)
    decreases |p| + |s|
  {
    if p == "" then s == ""
    else if p[0] == '%' then Matches(p[1..], s) || (s != "" && Matches(p, s[1..]))
    else if p[0] == '_' then s != "" && Matches(p[1..], s[1..])
    else if p[0] == '\\' then |p| > 1 && s != "" && Fold(p[1]) == Fold(s[0]) && Matches(p[2..], s[1..])
    else s != "" && Fold(p[0]) == Fold(s[0]) && Matches(p[1..], s[1..])
  }

  ghost predicate OccursAt(s: string, w: string, k: nat) {
    k + |w| <= |s| && FoldEq(s[k..k + |w|], w)
  }

  /** s contains w up to the case of ASCII letters. */
  ghost predicate Contains(s: string, w: string) {
    exists k: nat :: OccursAt(s, w, k)
  }

  // ---------------------------------------------------------------- escLikeChars

  function EscLikeChar(c: char): string {
    if c == '\\' || c == '%' || c == '_' then ['\\', c] else [c]
  }

  function EscLike(s: string): string {
    if s == "" then "" else EscLikeChar(s[0]) + EscLike(s[1..])
  }

  lemma {:induction false} PercentMatchesAll(s: string)
    ensures Matches("%", s)
  {
    if s != "" {
      PercentMatchesAll(s[1..]);
    }
  }

  /** An escaped word matches itself and nothing else, up to case. */
  lemma {:induction false} EscapedIsLiteral(w: string, s: string)
    ensures Matches(EscLike(w) + "%", s) <==> OccursAt(s, w, 0)
  {
    if w == "" {
      PercentMatchesAll(s);
      assert EscLike(w) + "%" == "%";
    } else {
      var p := EscLike(w) + "%";
      var rest := EscLike(w[1..]) + "%";
      assert p == EscLikeChar(w[0]) + rest;
      if s != "" {
        EscapedIsLiteral(w[1..], s[1..]);
        assert p[|EscLikeChar(w[0])|..] == rest;
        OccursAtFirst(s, w);
      }
    }
  }

  lemma OccursAtFirst(s: string, w: string)
    requires s != "" && w != ""
    ensures OccursAt(s, w, 0) <==> Fold(s[0]) == Fold(w[0]) && OccursAt(s[1..], w[1..], 0)
  {
    if |w| <= |s| {
      assert s[1..][0..|w| - 1] == s[0..|w|][1..];
      assert OccursAt(s[1..], w[1..], 0) ==>
               forall i :: 0 < i < |w| ==> Fold(s[0..|w|][i]) == Fold(w[i]) by {
        assert forall i :: 0 < i < |w| ==> s[0..|w|][i] == s[1..][0..|w| - 1][i - 1] && w[i] == w[1..][i - 1];
      }
    }
  }

  lemma {:induction false} LeadingPercent(p: string, s: string)
    ensures Matches("%" + p, s) <==> exists k: nat :: k <= |s| && Matches(p, s[k..])
  {
    assert ("%" + p)[1..] == p;
    assert s[0..] == s;
    if s != "" {
      LeadingPercent(p, s[1..]);
      forall k: nat | k < |s| ensures s[1..][k..] == s[k + 1..] {}
      if k: nat :| k <= |s| && Matches(p, s[k..]) {
        if k > 0 {
          assert s[1..][k - 1..] == s[k..];
        }
      }
    }
  }

  function Pattern(w: string): string {
    "%" + EscLike(w) + "%"
  }

  /** The pattern built from an escaped word matches exactly the texts that contain the word. */
  lemma PatternMeansContains(w: string, s: string)
    ensures Matches(Pattern(w), s) <==> Contains(s, w)
  {
    assert Pattern(w) == "%" + (EscLike(w) + "%");
    LeadingPercent(EscLike(w) + "%", s);
    forall k: nat | k <= |s| ensures Matches(EscLike(w) + "%", s[k..]) <==> OccursAt(s, w, k) {
      EscapedIsLiteral(w, s[k..]);
      if k + |w| <= |s| {
        assert s[k..][0..|w|] == s[k..k + |w|];
      }
    }
  }

  // ---------------------------------------------------------------- escJSONChars

  function Hex(n: nat): char
    requires n < 16
  {
    "0123456789abcdef"[n]
  }

  /** How encoding/json writes one character of a string. */
  function JsonChar(c: char): string {
    if c == '"' || c == '\\' then ['\\', c]
    else if c == '\U{8}' then "\\b"
    else if c == '\U{C}' then "\\f"
    else if c == '\n' then "\\n"
    else if c == '\r' then "\\r"
    else if c == '\t' then "\\t"
    else if c < ' ' || c == '<' || c == '>' || c == '&' then "\\u00" + [Hex(c as int / 16), Hex(c as int % 16)]
    else if c == '\U{2028}' then "\\u2028"
    else if c == '\U{2029}' then "\\u2029"
    else [c]
  }

  function Json(s: string): string {
    if s == "" then "" else JsonChar(s[0]) + Json(s[1..])
  }

  function HexValue(c: char): nat {
    if '0' <= c <= '9' then c as int - 48 else if 'a' <= c <= 'f' then c as int - 87 else 0
  }

  /** What the character after a backslash stands for. */
  function Unescaped(c: char): char {
    if c == 'b' then '\U{8}' else if c == 'f' then '\U{C}' else if c == 'n' then '\n' else if c == 'r' then '\r'
    else if c == 't' then '\t' else c
  }

  function CodePoint(s: string): char
    requires |s| == 4
  {
    var n := ((HexValue(s[0]) * 16 + HexValue(s[1])) * 16 + HexValue(s[2])) * 16 + HexValue(s[3]);
    if n < 0xD800 then n as char else '?'
  }

  /** How a string is read, by section 7 of RFC 8259; pairs of surrogates are never written. */
  function JsonRead(s: string): string {
    if s == "" then ""
    else if s[0] != '\\' || |s| == 1 then [s[0]] + JsonRead(s[1..])
    else if s[1] == 'u' && |s| >= 6 then [CodePoint(s[2..6])] + JsonRead(s[6..])
    else [Unescaped(s[1])] + JsonRead(s[2..])
  }

  lemma JsonCharIsRead(c: char, rest: string)
    ensures JsonRead(JsonChar(c) + rest) == [c] + JsonRead(rest)
  {
    JsonCharShape(c);
    hide JsonChar, Unescaped, CodePoint;
    var code := JsonChar(c);
    var s := code + rest;
    assert s[|code|..] == rest;
    if |code| == 6 {
      assert s[2..6] == code[2..6];
      assert s[0] == code[..2][0] && s[1] == code[..2][1];
    }
  }

  lemma JsonCharShape(c: char)
    ensures |JsonChar(c)| in {1, 2, 6}
    ensures |JsonChar(c)| == 1 ==> JsonChar(c) == [c] && c != '\\'
    ensures |JsonChar(c)| == 2 ==> JsonChar(c)[0] == '\\' && JsonChar(c)[1] != 'u' && Unescaped(JsonChar(c)[1]) == c
    ensures |JsonChar(c)| == 6 ==> JsonChar(c)[..2] == "\\u" && CodePoint(JsonChar(c)[2..6]) == c
  {
    if |JsonChar(c)| == 6 {
      CodeIsRead(c);
    }
  }

  lemma CodeIsRead(c: char)
    requires |JsonChar(c)| == 6
    ensures JsonChar(c)[..2] == "\\u" && CodePoint(JsonChar(c)[2..6]) == c
  {
    if c < ' ' || c == '<' || c == '>' || c == '&' {
      HexIsRead(c as int / 16);
      HexIsRead(c as int % 16);
      assert JsonChar(c)[2..6] == ['0', '0', Hex(c as int / 16), Hex(c as int % 16)];
    } else {
      assert JsonChar(c)[2..6] == "2028" || JsonChar(c)[2..6] == "2029";
    }
  }

  lemma HexIsRead(n: nat)
    requires n < 16
    ensures HexValue(Hex(n)) == n
  {
  }

  /** What is written is read again. */
  lemma {:induction false} JsonRoundTrip(x: string)
    ensures JsonRead(Json(x)) == x
  {
    if x != "" {
      hide JsonChar;
      JsonRoundTrip(x[1..]);
      JsonCharIsRead(x[0], Json(x[1..]));
    }
  }

  lemma {:induction false} JsonConcat(a: string, b: string)
    ensures Json(a + b) == Json(a) + Json(b)
  {
    if a == "" {
      assert a + b == b;
    } else {
      assert (a + b)[1..] == a[1..] + b;
      JsonConcat(a[1..], b);
    }
  }

  lemma JsonCharFolds(a: char, b: char)
    requires Fold(a) == Fold(b)
    ensures FoldEq(JsonChar(a), JsonChar(b))
  {
  }

  lemma FoldEqConcat(a: string, b: string, c: string, d: string)
    requires FoldEq(a, b) && FoldEq(c, d)
    ensures FoldEq(a + c, b + d)
  {
  }

  lemma {:induction false} JsonFolds(a: string, b: string)
    requires FoldEq(a, b)
    ensures FoldEq(Json(a), Json(b))
  {
    if a != "" {
      assert FoldEq(a[1..], b[1..]) by {
        assert forall i :: 0 <= i < |a| - 1 ==> a[1..][i] == a[i + 1] && b[1..][i] == b[i + 1];
      }
      JsonFolds(a[1..], b[1..]);
      JsonCharFolds(a[0], b[0]);
      FoldEqConcat(JsonChar(a[0]), JsonChar(b[0]), Json(a[1..]), Json(b[1..]));
    }
  }

  lemma OccursInside(before: string, found: string, after: string, w: string)
    requires FoldEq(found, w)
    ensures OccursAt(before + found + after, w, |before|)
  {
    assert (before + found + after)[|before|..|before| + |w|] == found;
  }

  lemma ContainedInJson(x: string, w: string)
    requires Contains(x, w)
    ensures Contains(Json(x), Json(w))
  {
    hide Json;
    var k: nat :| OccursAt(x, w, k);
    var found, rest := x[k..k + |w|], x[k + |w|..];
    assert x == x[..k] + (found + rest);
    JsonConcat(x[..k], found + rest);
    JsonConcat(found, rest);
    JsonFolds(found, w);
    OccursInside(Json(x[..k]), Json(found), Json(rest), Json(w));
    assert Json(x[..k]) + Json(found) + Json(rest) == Json(x);
  }

  lemma ContainsWithin(before: string, s: string, after: string, w: string)
    requires Contains(s, w)
    ensures Contains(before + s + after, w)
  {
    var k: nat :| OccursAt(s, w, k);
    assert (before + s + after)[|before| + k..|before| + k + |w|] == s[k..k + |w|];
    assert OccursAt(before + s + after, w, |before| + k);
  }

  /** No match is missed: a name that contains the word has a JSON form that matches the word's pattern,
      wherever in the stored JSON the name stands. */
  lemma JsonSearchFinds(x: string, w: string, before: string, after: string)
    requires Contains(x, w)
    ensures Matches(Pattern(Json(w)), before + Json(x) + after)
  {
    ContainedInJson(x, w);
    ContainsWithin(before, Json(x), after, Json(w));
    PatternMeansContains(Json(w), before + Json(x) + after);
  }

  // ---------------------------------------------------------------- false matches in JSON

  /** The converse does not hold: the code of an escaped character is found in its place. */
  lemma JsonSearchFindsTooMuch()
    ensures Matches(Pattern(Json("u0026")), Json("&")) && !Contains("&", "u0026")
  {
    AmpersandInJson();
    JsonPlain("u0026");
    hide Json, Pattern, Matches;
    OccursInside("\\", "u0026", "", "u0026");
    assert "\\" + "u0026" + "" == Json("&");
    PatternMeansContains("u0026", Json("&"));
  }

  lemma AmpersandInJson()
    ensures Json("&") == "\\u0026"
  {
    assert Json("&") == JsonChar('&') + Json("&"[1..]);
  }

  predicate IsPlain(c: char) {
    JsonChar(c) == [c]
  }

  lemma {:induction false} JsonPlain(s: string)
    requires forall c :: c in s ==> IsPlain(c)
    ensures Json(s) == s
  {
    if s != "" {
      assert s[0] in s && forall c :: c in s[1..] ==> c in s;
      JsonPlain(s[1..]);
      assert s == [s[0]] + s[1..];
    }
  }

  /** The last characters of escapes that take more than one character. */
  predicate EndsAnEscape(c: char) {
    'a' <= c <= 'f' || c == 'n' || c == 'r' || c == 't' || '0' <= c <= '9'
  }

  predicate IsCoded(c: char) {
    |JsonChar(c)| == 6
  }

  lemma HexEndsAnEscape(n: nat)
    requires n < 16
    ensures EndsAnEscape(Hex(n))
  {
    assert Hex(n) == if n < 10 then (48 + n) as char else (87 + n) as char;
  }

  lemma HexIsInjective(m: nat, n: nat)
    requires m < 16 && n < 16 && Fold(Hex(m)) == Fold(Hex(n))
    ensures m == n
  {
    assert Hex(m) == if m < 10 then (48 + m) as char else (87 + m) as char;
    assert Hex(n) == if n < 10 then (48 + n) as char else (87 + n) as char;
  }

  lemma CodedPrefixFree(a: char, b: char)
    requires IsCoded(a) && IsCoded(b)
    requires forall i :: 0 <= i < 6 ==> Fold(JsonChar(a)[i]) == Fold(JsonChar(b)[i])
    ensures a == b
  {
    hide Hex;
    var p, q := JsonChar(a), JsonChar(b);
    assert Fold(p[2]) == Fold(q[2]) && Fold(p[4]) == Fold(q[4]) && Fold(p[5]) == Fold(q[5]);
    if p[2] == '0' {
      HexIsInjective(a as int / 16, b as int / 16);
      HexIsInjective(a as int % 16, b as int % 16);
    }
  }

  lemma ShortPrefixFree(a: char, b: char)
    requires !IsPlain(a) && !IsPlain(b) && !IsCoded(a)
    requires Fold(JsonChar(a)[1]) == Fold(JsonChar(b)[1])
    ensures a == b
  {
  }

  /** Escapes are told apart before either ends. */
  lemma JsonCharPrefixFree(a: char, b: char)
    requires forall i :: 0 <= i < |JsonChar(a)| && i < |JsonChar(b)| ==> Fold(JsonChar(a)[i]) == Fold(JsonChar(b)[i])
    ensures Fold(a) == Fold(b) && |JsonChar(a)| == |JsonChar(b)|
  {
    assert Fold(JsonChar(a)[0]) == Fold(JsonChar(b)[0]);
    if IsPlain(a) || IsPlain(b) {
      assert IsPlain(a) && IsPlain(b);
      JsonCharFolds(a, b);
    } else {
      assert Fold(JsonChar(a)[1]) == Fold(JsonChar(b)[1]);
      if !IsCoded(a) {
        ShortPrefixFree(a, b);
      } else if !IsCoded(b) {
        ShortPrefixFree(b, a);
      } else {
        CodedPrefixFree(a, b);
      }
    }
  }

  lemma {:induction false} AlignedMatch(x: string, w: string)
    requires OccursAt(Json(x), Json(w), 0)
    ensures OccursAt(x, w, 0)
  {
    if w != "" && x != "" {
      var p, q := JsonChar(x[0]), JsonChar(w[0]);
      var s, t := p + Json(x[1..]), q + Json(w[1..]);
      assert s == Json(x) && t == Json(w);
      FirstEscapesAgree(p, Json(x[1..]), q, Json(w[1..]));
      JsonCharPrefixFree(x[0], w[0]);
      RestsAgree(p, Json(x[1..]), q, Json(w[1..]));
      AlignedMatch(x[1..], w[1..]);
      OccursAtFirst(x, w);
    }
  }

  lemma FirstEscapesAgree(p: string, s: string, q: string, t: string)
    requires OccursAt(p + s, q + t, 0)
    ensures forall i :: 0 <= i < |p| && i < |q| ==> Fold(p[i]) == Fold(q[i])
  {
    assert forall i :: 0 <= i < |q + t| ==> (p + s)[0..|q + t|][i] == (p + s)[i];
    assert forall i :: 0 <= i < |p| && i < |q| ==> (p + s)[i] == p[i] && (q + t)[i] == q[i];
  }

  lemma RestsAgree(p: string, s: string, q: string, t: string)
    requires OccursAt(p + s, q + t, 0) && |p| == |q|
    ensures OccursAt(s, t, 0)
  {
    assert forall i :: 0 <= i < |t| ==> (p + s)[0..|q + t|][|q| + i] == s[i] && (q + t)[|q| + i] == t[i];
  }

  lemma OccursLater(p: string, s: string, w: string, k: nat)
    requires k >= |p|
    ensures OccursAt(p + s, w, k) <==> OccursAt(s, w, k - |p|)
  {
    if k + |w| <= |p + s| {
      assert (p + s)[k..k + |w|] == s[k - |p|..k - |p| + |w|];
    }
  }

  // ---------------------------------------------------------------- exactly which words go wrong

  /** The word begins with the code of an escaped character, or is the beginning of one. */
  ghost predicate BeginsCode(w: string) {
    exists c :: IsCoded(c) && AgreesWithCode(w, c)
  }

  ghost predicate AgreesWithCode(w: string, c: char)
    requires IsCoded(c)
  {
    w != "" && forall i :: 0 <= i < |w| && i < 5 ==> Fold(w[i]) == JsonChar(c)[i + 1]
  }

  /** The word's JSON form can match from just after the backslash of an escape on. */
  ghost predicate FollowsBackslash(w: string) {
    if w == "" then false
    else if w[0] == '\\' then FollowsBackslash(w[1..])
    else
      || Fold(w[0]) in {'b', 'f', 'n', 'r', 't'}
      || BeginsCode(w)
      || (!IsPlain(w[0]) && w[0] != '"')
  }

  /** The word's JSON form can match from the inside of an escape on. */
  ghost predicate FoundInsideEscape(w: string) {
    FollowsBackslash(w) || (w != "" && EndsAnEscape(Fold(w[0])))
  }

  /** The text that starts inside the escape of the first character. */
  lemma MatchAt(p: string, s: string, t: string, k: nat, i: nat)
    requires OccursAt(p + s, t, k) && i < |t|
    ensures k + i < |p + s|
    ensures k + i < |p| ==> Fold(p[k + i]) == Fold(t[i])
    ensures k + i >= |p| ==> k + i - |p| < |s| && Fold(s[k + i - |p|]) == Fold(t[i])
  {
    assert (p + s)[k..k + |t|][i] == (p + s)[k + i];
  }

  /** From the third octet of an escape on there are only the digits of a code. */
  lemma JsonCharDigits(c: char, k: nat)
    requires 2 <= k < |JsonChar(c)|
    ensures IsCoded(c) && EndsAnEscape(JsonChar(c)[k]) && Fold(JsonChar(c)[k]) == JsonChar(c)[k]
  {
    hide Hex;
    if JsonChar(c)[2] == '0' {
      HexEndsAnEscape(c as int / 16);
      HexEndsAnEscape(c as int % 16);
    }
  }

  /** No escape in Json(v) agrees with the digits of a code, so that v itself does. */
  lemma {:induction false} PlainAgrees(v: string, p: string, n: nat)
    requires n <= |p| && n <= |Json(v)|
    requires forall i :: 0 <= i < n ==> p[i] != '\\' && Fold(Json(v)[i]) == p[i]
    ensures forall i :: 0 <= i < n && i < |v| ==> Fold(v[i]) == p[i]
  {
    if n > 0 && v != "" {
      assert Fold(JsonChar(v[0])[0]) == p[0];
      assert JsonChar(v[0])[0] == '\\' ==> Fold('\\') == '\\';
      assert IsPlain(v[0]);
      assert Json(v) == [v[0]] + Json(v[1..]);
      forall i | 0 <= i < n - 1 ensures p[1..][i] != '\\' && Fold(Json(v[1..])[i]) == p[1..][i] {
        assert Json(v[1..])[i] == Json(v)[i + 1];
      }
      PlainAgrees(v[1..], p[1..], n - 1);
      forall i | 0 < i < n && i < |v| ensures Fold(v[i]) == p[i] {
        assert v[1..][i - 1] == v[i] && p[1..][i - 1] == p[i];
      }
    }
  }

  lemma {:induction false} JsonIsNoShorter(w: string)
    ensures |Json(w)| >= |w|
  {
    if w != "" {
      JsonIsNoShorter(w[1..]);
    }
  }

  lemma RestsAgreeAt(p: string, s: string, q: string, t: string, k: nat)
    requires OccursAt(p + s, q + t, k) && |p| == |q|
    ensures OccursAt(s, t, k)
  {
    assert forall i :: 0 <= i < |t| ==>
             (p + s)[k..k + |q + t|][|q| + i] == s[k..k + |t|][i] && (q + t)[|q| + i] == t[i];
  }

  lemma CodeIsMet(c: char, s: string, w: string)
    requires IsCoded(c) && w != "" && OccursAt(JsonChar(c) + s, Json(w), 1)
    ensures AgreesWithCode(w, c)
  {
    hide Json, JsonChar;
    var p, t := JsonChar(c), Json(w);
    JsonIsNoShorter(w);
    var n := if |t| < 5 then |t| else 5;
    forall i | 0 <= i < n ensures p[1..][i] != '\\' && Fold(t[i]) == p[1..][i] {
      MatchAt(p, s, t, 1, i);
      CodeCharacter(c, i + 1);
    }
    PlainAgrees(w, p[1..], n);
  }

  lemma CodeCharacter(c: char, k: nat)
    requires IsCoded(c) && 1 <= k < 6
    ensures JsonChar(c)[k] != '\\' && Fold(JsonChar(c)[k]) == JsonChar(c)[k] && IsPlain(JsonChar(c)[k])
  {
    if k >= 2 {
      JsonCharDigits(c, k);
    }
  }

  lemma EscapedBackslash(c: char)
    requires !IsPlain(c)
    ensures |JsonChar(c)| >= 2
    ensures Fold(JsonChar(c)[1]) == '\\' ==> c == '\\' && |JsonChar(c)| == 2
  {
  }

  lemma TwoCharacters(d: char)
    requires d == '\\' || d == '"'
    ensures JsonChar(d) == ['\\', d] && Fold('\\') == '\\' && Fold(d) == d
  {
  }

  /** After the backslash of an escaped backslash comes the next escape. */
  lemma NextEscape(c: char, s: string, w: string)
    requires w != "" && !IsPlain(c) && OccursAt(JsonChar(c) + Json(s), Json(w), 1)
    requires w[0] == '\\' || w[0] == '"'
    ensures c == '\\' && s != "" && Fold(JsonChar(s[0])[0]) == w[0]
    ensures OccursAt(Json(s), Json(w[1..]), 1)
  {
    JsonNothing();
    TwoCharacters(w[0]);
    EscapedBackslash(c);
    JsonCons(w[0], w[1..]);
    assert w == [w[0]] + w[1..];
    if s != "" {
      JsonCons(s[0], s[1..]);
      assert s == [s[0]] + s[1..];
      FirstOfJsonChar(s[0]);
    }
    hide Json, JsonChar, OccursAt;
    var p, q := JsonChar(c), JsonChar(w[0]);
    MatchAt(p, Json(s), Json(w), 1, 0);
    MatchAt(p, Json(s), Json(w), 1, 1);
    RestsAgreeAt(p, Json(s), q, Json(w[1..]), 1);
  }

  lemma ShortEscapes(c: char, d: char)
    requires !IsPlain(c) && !IsCoded(c)
    ensures JsonChar(c)[1] in {'\\', '"', 'b', 'f', 'n', 'r', 't'} && Fold(JsonChar(c)[1]) == JsonChar(c)[1]
    ensures IsPlain(d) ==> Fold(d) != '\\' && Fold(d) != '"'
  {
  }

  lemma MatchStartsEscape(c: char, s: string, w: string)
    requires w != "" && w[0] != '\\' && !IsPlain(c) && OccursAt(JsonChar(c) + Json(s), Json(w), 1)
    ensures FollowsBackslash(w)
  {
    hide Json, JsonChar, OccursAt, AgreesWithCode;
    if w[0] == '"' {
      NextEscape(c, s, w);
      FirstOfJsonChar(s[0]);
    } else if IsCoded(c) {
      CodeIsMet(c, Json(s), w);
    } else {
      JsonCons(w[0], w[1..]);
      assert w == [w[0]] + w[1..];
      FirstOfJsonChar(w[0]);
      EscapedBackslash(c);
      ShortEscapes(c, w[0]);
      MatchAt(JsonChar(c), Json(s), Json(w), 1, 0);
    }
  }

  /** A match that starts just after the backslash of an escape is none, unless the word allows it, or it is
      one of backslashes alone, which the text holds too. */
  lemma {:induction false} MatchAfterBackslash(c: char, s: string, w: string)
    requires !IsPlain(c) && OccursAt(JsonChar(c) + Json(s), Json(w), 1) && !FollowsBackslash(w)
    ensures OccursAt([c] + s, w, 0)
    decreases |w|
  {
    if w == "" {
      EmptyOccurs([c] + s);
    } else {
      hide OccursAt, Json;
      if w[0] != '\\' {
        MatchStartsEscape(c, s, w);
      }
      NextEscape(c, s, w);
      hide JsonChar;
      JsonCons(s[0], s[1..]);
      assert [s[0]] + s[1..] == s == ([c] + s)[1..];
      MatchAfterBackslash(s[0], s[1..], w[1..]);
      OccursAtFirst([c] + s, w);
    }
  }

  lemma EmptyOccurs(s: string)
    ensures OccursAt(s, "", 0)
  {
  }

  lemma MatchInFirst(c: char, s: string, w: string, k: nat)
    requires !FoundInsideEscape(w) && w != "" && OccursAt(JsonChar(c) + Json(s), Json(w), k)
    requires 0 < k < |JsonChar(c)|
    ensures OccursAt([c] + s, w, 0)
  {
    hide FollowsBackslash, OccursAt;
    if k == 1 {
      MatchAfterBackslash(c, s, w);
    } else {
      hide JsonChar;
      JsonCharDigits(c, k);
      JsonCons(w[0], w[1..]);
      assert w == [w[0]] + w[1..];
      FirstOfJsonChar(w[0]);
      MatchAt(JsonChar(c), Json(s), Json(w), k, 0);
    }
  }

  lemma FirstOfJsonChar(c: char)
    ensures JsonChar(c) != "" && JsonChar(c)[0] == if IsPlain(c) then c else '\\'
    ensures Fold(JsonChar(c)[0]) != '"'
  {
  }

  /** A match of a word that can match inside no escape is a match of the word itself. */
  lemma {:induction false} MatchIsGenuine(x: string, w: string, k: nat)
    requires !FoundInsideEscape(w) && OccursAt(Json(x), Json(w), k)
    ensures Contains(x, w)
    decreases |x|
  {
    if w == "" {
      EmptyOccurs(x);
    } else {
      JsonIsNoShorter(w);
      assert x != "";
      hide FoundInsideEscape, JsonChar, FoldEq;
      if k == 0 {
        AlignedMatch(x, w);
      } else {
        var p := JsonChar(x[0]);
        JsonCons(x[0], x[1..]);
        assert x == [x[0]] + x[1..] + "" == [x[0]] + x[1..];
        if k < |p| {
          MatchInFirst(x[0], x[1..], w, k);
        } else {
          OccursLater(p, Json(x[1..]), Json(w), k);
          MatchIsGenuine(x[1..], w, k - |p|);
          ContainsWithin([x[0]], x[1..], "", w);
        }
      }
    }
  }

  /** The character whose escape ends with c. */
  function EscapeEndingWith(c: char): (r: char)
    requires EndsAnEscape(c)
    ensures JsonChar(r)[|JsonChar(r)| - 1] == c && |JsonChar(r)| > 1 && Fold(r) == r != c
  {
    if c == 'n' then '\n' else if c == 'r' then '\r' else if c == 't' then '\t'
    else if c <= '9' then (16 + (c as int - 48)) as char
    else (16 + (c as int - 87)) as char
  }

  lemma FirstCharFolds(c: char, d: char, rest: string)
    requires Fold(c) == Fold(d)
    ensures FoldEq([c] + rest, [d] + rest)
  {
  }

  lemma OtherFirstChar(c: char, w: string)
    requires w != "" && Fold(c) != Fold(w[0])
    ensures !Contains([c] + w[1..], w)
  {
    var x := [c] + w[1..];
    forall k: nat ensures !OccursAt(x, w, k) {
      if k + |w| <= |x| {
        assert x[k..k + |w|][0] == c;
      }
    }
  }

  lemma LastCharMatches(e: string, c: char, rest: string)
    requires e != "" && Fold(e[|e| - 1]) == Fold(c)
    ensures Contains(e + rest, [c] + rest)
  {
    var head, last := e[..|e| - 1], e[|e| - 1];
    FirstCharFolds(last, c, rest);
    OccursInside(head, [last] + rest, "", [c] + rest);
    assert e + rest == head + ([last] + rest) + "";
  }

  lemma MatchesInsideEscape(y: char, w: string)
    requires w != "" && IsPlain(w[0]) && JsonChar(y) != ""
    requires Fold(JsonChar(y)[|JsonChar(y)| - 1]) == Fold(w[0])
    ensures Contains(Json([y] + w[1..]), Json(w))
  {
    assert ([y] + w[1..])[1..] == w[1..];
    LastCharMatches(JsonChar(y), w[0], Json(w[1..]));
  }

  lemma ShorterContainsNot(x: string, w: string)
    requires |x| < |w|
    ensures !Contains(x, w)
  {
  }

  lemma BackslashAdded(x: string, w: string)
    requires w != "" && w[0] == '\\' && !Contains(x, w[1..])
    ensures !Contains(['\\'] + x, w)
  {
    var longer := ['\\'] + x;
    forall k: nat ensures !OccursAt(longer, w, k) {
      if OccursAt(longer, w, k) {
        assert k + |w| - 1 <= |x|;
        assert x[k..k + |w[1..]|] == longer[k..k + |w|][1..];
        forall i | 0 <= i < |w[1..]| ensures Fold(x[k..k + |w[1..]|][i]) == Fold(w[1..][i]) {
          assert w[1..][i] == w[i + 1] && longer[k..k + |w|][i + 1] == x[k..k + |w[1..]|][i];
        }
        assert OccursAt(x, w[1..], k);
      }
    }
  }

  lemma EscapeIsPlainText(c: char)
    requires !IsPlain(c) && c != '"' && c != '\\'
    ensures JsonChar(c) == "\\" + JsonChar(c)[1..]
    ensures forall d :: d in JsonChar(c)[1..] ==> IsPlain(d) && Fold(d) != c
  {
    var e := JsonChar(c);
    forall k | 1 <= k < |e| ensures IsPlain(e[k]) && Fold(e[k]) == e[k] != c {
      if k >= 2 {
        JsonCharDigits(c, k);
      }
    }
  }

  lemma SpelledOutDiffers(code: string, w: string)
    requires w != "" && Fold(w[0]) == w[0] != '\\' && forall d :: d in code ==> Fold(d) != w[0]
    ensures !Contains("\\" + code + w[1..], w)
  {
    var x := "\\" + code + w[1..];
    forall k: nat | k + |w| <= |x| ensures !OccursAt(x, w, k) {
      assert x[k..k + |w|][0] == x[k];
      assert k > 0 ==> x[k] == code[k - 1] && x[k] in code;
    }
  }

  lemma JsonCons(c: char, s: string)
    ensures Json([c] + s) == JsonChar(c) + Json(s)
  {
    assert ([c] + s)[1..] == s;
  }

  lemma SpelledOutMatches(w: string, code: string)
    requires w != "" && JsonChar(w[0]) == "\\" + code && JsonChar('\\') == "\\" + "\\"
    requires forall d :: d in code ==> IsPlain(d)
    ensures OccursAt(Json("\\" + code + w[1..]), Json(w), 1)
  {
    hide *;
    var x, rest := "\\" + code + w[1..], Json(w[1..]);
    assert x == ['\\'] + (code + w[1..]);
    JsonCons('\\', code + w[1..]);
    JsonConcat(code, w[1..]);
    JsonPlain(code);
    JsonCons(w[0], w[1..]);
    assert w == [w[0]] + w[1..];
    assert Json(w) == "\\" + code + rest;
    assert Json(x) == "\\" + Json(w) + "";
    FoldEqSame(Json(w));
    OccursInside("\\", Json(w), "", Json(w));
  }

  /** A text that holds the escape of the word's first character as it is written. */
  lemma SpelledOutEscape(w: string) returns (x: string)
    requires w != "" && !IsPlain(w[0]) && w[0] != '"' && w[0] != '\\'
    ensures x != "" && !IsPlain(x[0]) && OccursAt(Json(x), Json(w), 1) && !Contains(x, w)
  {
    hide OccursAt, Json, Contains;
    var code := JsonChar(w[0])[1..];
    x := "\\" + code + w[1..];
    EscapeIsPlainText(w[0]);
    SpelledOutDiffers(code, w);
    SpelledOutMatches(w, code);
  }

  /** The character whose escape is a backslash and the letter f. */
  function Named(f: char): (y: char)
    requires f in {'b', 'f', 'n', 'r', 't'}
    ensures JsonChar(y) == ['\\', f] && !IsPlain(y) && Fold(y) == y != f
  {
    if f == 'b' then '\U{8}' else if f == 'f' then '\U{C}'
    else if f == 'n' then '\n' else if f == 'r' then '\r' else '\t'
  }

  lemma NamedEscape(w: string) returns (x: string)
    requires w != "" && Fold(w[0]) in {'b', 'f', 'n', 'r', 't'} && IsPlain(w[0])
    ensures x != "" && !IsPlain(x[0]) && OccursAt(Json(x), Json(w), 1) && !Contains(x, w)
  {
    hide Json, JsonChar, OccursAt, Contains, FoldEq;
    var f := Fold(w[0]);
    var y := Named(f);
    var rest := Json(w[1..]);
    x := [y] + w[1..];
    JsonCons(y, w[1..]);
    JsonCons(w[0], w[1..]);
    assert w == [w[0]] + w[1..];
    FirstCharFolds(f, w[0], rest);
    OccursInside("\\", [f] + rest, "", Json(w));
    assert Json(x) == "\\" + ([f] + rest) + "";
    OtherFirstChar(y, w);
  }

  lemma CodePrefixIsPlain(w: string, c: char, n: nat)
    requires IsCoded(c) && AgreesWithCode(w, c) && n <= |w| && n <= 5
    ensures Json(w[..n]) == w[..n] && FoldEq(JsonChar(c)[1..n + 1], w[..n])
  {
    forall d | d in w[..n] ensures IsPlain(d) {
      var i :| 0 <= i < n && w[i] == d;
      CodeCharacter(c, i + 1);
      PlainUpToCase(d);
    }
    JsonPlain(w[..n]);
    forall i | 0 <= i < n ensures Fold(JsonChar(c)[1..n + 1][i]) == Fold(w[..n][i]) {
      CodeCharacter(c, i + 1);
    }
  }

  lemma CodedMatches(w: string, c: char, n: nat)
    requires n <= |w| && n <= 5 && (n < 5 ==> n == |w|)
    requires |JsonChar(c)| == 6 && JsonChar(c)[..1] == "\\"
    requires Json(w[..n]) == w[..n] && FoldEq(JsonChar(c)[1..n + 1], w[..n])
    ensures OccursAt(Json([c] + w[n..]), Json(w), 1)
  {
    hide *;
    var p, rest := JsonChar(c), Json(w[n..]);
    JsonConcat(w[..n], w[n..]);
    JsonCons(c, w[n..]);
    assert w == w[..n] + w[n..];
    FoldEqSame(rest);
    FoldEqConcat(p[1..n + 1], w[..n], rest, rest);
    CutCode(p, rest, n) by { JsonNothing(); assert n < 5 ==> w[n..] == ""; }
    OccursInside("\\", p[1..n + 1] + rest, p[n + 1..], Json(w));
  }

  lemma CutCode(p: string, rest: string, n: nat)
    requires n <= 5 && |p| == 6 && p[..1] == "\\" && (n < 5 ==> rest == "")
    ensures p + rest == "\\" + (p[1..n + 1] + rest) + p[n + 1..]
  {
    assert p == p[..1] + p[1..n + 1] + p[n + 1..];
  }

  lemma CodedDiffers(w: string, c: char, n: nat)
    requires IsCoded(c) && AgreesWithCode(w, c) && n == if |w| < 5 then |w| else 5
    ensures !Contains([c] + w[n..], w)
  {
    if n == 1 {
      CodeCharacter(c, 1);
      OtherFirstChar(c, w);
    } else {
      ShorterContainsNot([c] + w[n..], w);
    }
  }

  lemma CodedEscape(w: string) returns (x: string)
    requires BeginsCode(w)
    ensures x != "" && !IsPlain(x[0]) && OccursAt(Json(x), Json(w), 1) && !Contains(x, w)
  {
    hide OccursAt, Json, Contains, FoldEq, AgreesWithCode;
    var c :| IsCoded(c) && AgreesWithCode(w, c);
    var n := if |w| < 5 then |w| else 5;
    x := [c] + w[n..];
    CodedDiffers(w, c, n);
    CodePrefixIsPlain(w, c, n);
    CodedMatches(w, c, n);
  }

  lemma JsonNothing()
    ensures Json("") == ""
  {
  }

  lemma FoldEqSame(s: string)
    ensures FoldEq(s, s)
  {
  }

  lemma PlainUpToCase(d: char)
    requires IsPlain(Fold(d))
    ensures IsPlain(d)
  {
  }

  lemma BackslashesAlign(y: string, v: string)
    requires y != "" && !IsPlain(y[0]) && OccursAt(Json(y), Json(v), 1)
    ensures OccursAt(Json(['\\'] + y), Json(['\\'] + v), 1)
  {
    JsonCons('\\', y);
    JsonCons('\\', v);
    assert JsonChar('\\') == "\\\\" && Json(y)[0] == '\\';
    hide Json, JsonChar;
    BackslashesPrepended(Json(y), Json(v));
  }

  lemma BackslashesPrepended(s: string, t: string)
    requires OccursAt(s, t, 1) && s[0] == '\\'
    ensures OccursAt("\\\\" + s, "\\\\" + t, 1)
  {
    var s', t' := "\\\\" + s, "\\\\" + t;
    forall i | 0 <= i < |t'| ensures Fold(s'[1..1 + |t'|][i]) == Fold(t'[i]) {
      assert s'[1..1 + |t'|][i] == s'[1 + i];
      assert i >= 2 ==> t'[i] == t[i - 2] && s'[1 + i] == s[1..1 + |t|][i - 2];
    }
  }

  /** A word that allows it is found just after a backslash, in a text that does not contain it. */
  lemma {:induction false} FoundAfterBackslash(w: string) returns (x: string)
    requires FollowsBackslash(w)
    ensures x != "" && !IsPlain(x[0]) && OccursAt(Json(x), Json(w), 1) && !Contains(x, w)
  {
    hide OccursAt, Json, Contains;
    if w[0] == '\\' {
      var y := FoundAfterBackslash(w[1..]);
      x := ['\\'] + y;
      BackslashesAlign(y, w[1..]);
      assert w == ['\\'] + w[1..];
      BackslashAdded(y, w);
    } else if Fold(w[0]) in {'b', 'f', 'n', 'r', 't'} {
      PlainUpToCase(w[0]);
      x := NamedEscape(w);
    } else if BeginsCode(w) {
      x := CodedEscape(w);
    } else {
      x := SpelledOutEscape(w);
    }
  }

  lemma FoundAtTheEndOfAnEscape(w: string) returns (x: string)
    requires w != "" && EndsAnEscape(Fold(w[0]))
    ensures Contains(Json(x), Json(w)) && !Contains(x, w)
  {
    hide Json, Matches, Contains;
    var y := EscapeEndingWith(Fold(w[0]));
    x := [y] + w[1..];
    MatchesInsideEscape(y, w);
    OtherFirstChar(y, w);
  }

  /** The search for a word in JSON text is exact if and only if the word can match inside no escape. */
  lemma JsonSearchIsExactExactlyWhen(w: string)
    ensures (forall x :: Matches(Pattern(Json(w)), Json(x)) <==> Contains(x, w)) <==> !FoundInsideEscape(w)
  {
    hide Json, Matches, Pattern, FollowsBackslash;
    forall x ensures Matches(Pattern(Json(w)), Json(x)) <==> Contains(Json(x), Json(w)) {
      PatternMeansContains(Json(w), Json(x));
    }
    if FollowsBackslash(w) {
      var x := FoundAfterBackslash(w);
      assert Contains(Json(x), Json(w));
    } else if FoundInsideEscape(w) {
      var x := FoundAtTheEndOfAnEscape(w);
    } else {
      forall x ensures Contains(Json(x), Json(w)) <==> Contains(x, w) {
        if Contains(x, w) {
          ContainedInJson(x, w);
        }
        if Contains(Json(x), Json(w)) {
          var k: nat :| OccursAt(Json(x), Json(w), k);
          MatchIsGenuine(x, w, k);
        }
      }
    }
  }
}
