/** The addresses of a message as they are stored, and what the search for a word in them finds. */
module AddressJson {
  import opened Like

  datatype Address = Address(name: string, address: string)

  function Members(a: Address): string {
    "\"Name\":\"" + Json(a.name) + "\",\"Address\":\"" + Json(a.address) + "\""
  }

  /** The sender is one object. */
  function ObjectJson(a: Address): string {
    "{" + Members(a) + "}"
  }

  /** The objects of a list, after the brace that opens the first of them. */
  function Objects(list: seq<Address>): string
    requires list != []
  {
    Members(list[0]) + (if |list| == 1 then "}]" else "},{" + Objects(list[1..]))
  }

  /** An empty list is not stored, and reads as an empty object. */
  function ListJson(list: seq<Address>): string {
    if list == [] then "{}" else "[{" + Objects(list)
  }

  const KEYS: seq<string> := ["Name", "Address", ":", ","]
  const OBJECT: seq<string> := KEYS + ["{", "}"]
  const LIST: seq<string> := KEYS + ["{}", "[{", "},{", "}]"]

  /** The word is found in what stands between the texts, quotes apart. */
  ghost predicate InSyntax(pieces: seq<string>, w: string) {
    exists piece :: piece in pieces && Contains(piece, w)
  }

  ghost predicate IsIn(a: Address, w: string) {
    Contains(a.name, w) || Contains(a.address, w)
  }

  ghost predicate IsStoredIn(a: Address, t: string) {
    Contains(Json(a.name), t) || Contains(Json(a.address), t)
  }

  // ---------------------------------------------------------------- between two quotes

  lemma FoldsToQuote(c: char)
    ensures Fold(c) == '"' ==> c == '"'
  {
  }

  /** A match without a quote does not reach across one. */
  lemma QuoteParts(a: string, b: string, t: string)
    requires '"' !in t
    ensures Contains(a + "\"" + b, t) <==> Contains(a, t) || Contains(b, t)
  {
    var s := a + "\"" + b;
    if Contains(a, t) {
      ContainsWithin("", a, "\"" + b, t);
      assert "" + a + ("\"" + b) == s;
    }
    if Contains(b, t) {
      ContainsWithin(a + "\"", b, "", t);
      assert a + "\"" + b + "" == s;
    }
    if k: nat :| OccursAt(s, t, k) {
      if k + |t| <= |a| {
        assert s[k..k + |t|] == a[k..k + |t|];
        assert OccursAt(a, t, k);
      } else if k > |a| {
        var j := k - |a| - 1;
        assert s[k..k + |t|] == b[j..j + |t|];
        assert OccursAt(b, t, j);
      } else {
        assert s[k..k + |t|][|a| - k] == '"';
        FoldsToQuote(t[|a| - k]);
        assert t[|a| - k] in t;
      }
    }
  }

  lemma {:induction false} NoQuoteInJson(w: string)
    requires '"' !in w
    ensures '"' !in Json(w)
  {
    if w != "" {
      NoQuoteInJson(w[1..]);
      assert w[0] in w && forall c :: c in w[1..] ==> c in w;
      NoQuoteInCode(w[0]);
    }
  }

  lemma NoQuoteInCode(c: char)
    requires c != '"'
    ensures '"' !in JsonChar(c)
  {
  }

  /** What is found in an object and around it. */
  lemma MembersParts(before: string, a: Address, after: string, t: string)
    requires '"' !in t
    ensures Contains(before + Members(a) + after, t)
            <==> || Contains(before, t) || Contains(after, t) || InSyntax(KEYS, t)
                 || IsStoredIn(a, t)
  {
    hide Contains, Json;
    var n, d := Json(a.name), Json(a.address);
    var s5 := d + "\"" + after;
    var s4 := ":" + "\"" + s5;
    var s3 := "Address" + "\"" + s4;
    var s2 := "," + "\"" + s3;
    var s1 := n + "\"" + s2;
    var s0 := ":" + "\"" + s1;
    var s := "Name" + "\"" + s0;
    QuoteParts(d, after, t);
    QuoteParts(":", s5, t);
    QuoteParts("Address", s4, t);
    QuoteParts(",", s3, t);
    QuoteParts(n, s2, t);
    QuoteParts(":", s1, t);
    QuoteParts("Name", s0, t);
    QuoteParts(before, s, t);
    assert before + Members(a) + after == before + "\"" + s;
    assert KEYS[0] in KEYS && KEYS[1] in KEYS && KEYS[2] in KEYS && KEYS[3] in KEYS;
  }

  lemma {:induction false} ObjectsParts(before: string, list: seq<Address>, t: string)
    requires list != [] && '"' !in t
    ensures Contains(before + Objects(list), t)
            <==> || Contains(before, t) || InSyntax(KEYS, t) || Contains("}]", t)
                 || (|list| > 1 && Contains("},{", t)) || (exists a :: a in list && IsStoredIn(a, t))
    decreases |list|
  {
    hide Contains, InSyntax, IsStoredIn, Members;
    var rest := list[1..];
    assert list == [list[0]] + rest;
    if rest == [] {
      MembersParts(before, list[0], "}]", t);
      assert before + Objects(list) == before + Members(list[0]) + "}]";
    } else {
      var after := "},{" + Objects(rest);
      MembersParts(before, list[0], after, t);
      ObjectsParts("},{", rest, t);
      assert before + Objects(list) == before + Members(list[0]) + after;
    }
  }

  // ---------------------------------------------------------------- when the search is exact

  /** A word that can match inside no escape is found in the stored text exactly if it is in the text. */
  lemma StoredIsIn(a: Address, w: string)
    requires !FoundInsideEscape(w)
    ensures IsStoredIn(a, Json(w)) <==> IsIn(a, w)
  {
    hide FoundInsideEscape, Contains, Json;
    GenuineExactly(a.name, w);
    GenuineExactly(a.address, w);
  }

  lemma GenuineExactly(x: string, w: string)
    requires !FoundInsideEscape(w)
    ensures Contains(Json(x), Json(w)) <==> Contains(x, w)
  {
    hide FoundInsideEscape, Json, Matches, Pattern;
    JsonSearchIsExactExactlyWhen(w);
    PatternMeansContains(Json(w), Json(x));
  }

  lemma SyntaxIsPlain(piece: string)
    requires piece in OBJECT + LIST
    ensures Json(piece) == piece
  {
    hide JsonChar;
    assert piece in KEYS || piece in ["{", "}", "{}", "[{", "},{", "}]"];
    assert forall i :: 0 <= i < |piece| ==> 'A' <= piece[i] <= '}' || piece[i] == ':' || piece[i] == ',';
    assert forall i :: 0 <= i < |piece| ==> piece[i] != '\\';
    forall i | 0 <= i < |piece| ensures IsPlain(piece[i]) {
      SyntaxCharIsPlain(piece[i]);
    }
    JsonPlain(piece);
  }

  lemma SyntaxCharIsPlain(c: char)
    requires ('A' <= c <= '}' || c == ':' || c == ',') && c != '\\'
    ensures IsPlain(c)
  {
  }

  lemma InSyntaxStored(pieces: seq<string>, w: string)
    requires pieces == OBJECT || pieces == LIST
    ensures InSyntax(pieces, w) ==> InSyntax(pieces, Json(w))
    ensures !FoundInsideEscape(w) ==> (InSyntax(pieces, Json(w)) ==> InSyntax(pieces, w))
  {
    hide FoundInsideEscape, Json, Contains;
    forall piece | piece in pieces
      ensures Contains(piece, w) ==> Contains(piece, Json(w))
      ensures !FoundInsideEscape(w) ==> (Contains(piece, Json(w)) ==> Contains(piece, w))
    {
      SyntaxIsPlain(piece);
      if Contains(piece, w) {
        ContainedInJson(piece, w);
      }
      if !FoundInsideEscape(w) {
        GenuineExactly(piece, w);
      }
    }
  }

  lemma ListParts(list: seq<Address>, t: string)
    requires '"' !in t
    ensures Contains(ListJson(list), t) ==> InSyntax(LIST, t) || exists a :: a in list && IsStoredIn(a, t)
    ensures (exists a :: a in list && IsStoredIn(a, t)) ==> Contains(ListJson(list), t)
    ensures InSyntax(LIST, t) && |list| > 1 ==> Contains(ListJson(list), t) || Contains("{}", t)
  {
    hide Contains, IsStoredIn, Objects;
    assert LIST == ["Name", "Address", ":", ",", "{}", "[{", "},{", "}]"];
    assert KEYS == ["Name", "Address", ":", ","];
    assert LIST[4] == "{}" && LIST[5] == "[{" && LIST[6] == "},{" && LIST[7] == "}]";
    assert forall k :: 0 <= k < 4 ==> KEYS[k] == LIST[k];
    if list != [] {
      ObjectsParts("[{", list, t);
    }
  }

  lemma ObjectParts(a: Address, t: string)
    requires '"' !in t
    ensures Contains(ObjectJson(a), t) <==> InSyntax(OBJECT, t) || IsStoredIn(a, t)
  {
    hide Contains, IsStoredIn, Members;
    assert OBJECT == ["Name", "Address", ":", ",", "{", "}"];
    assert KEYS == ["Name", "Address", ":", ","];
    assert OBJECT[4] == "{" && OBJECT[5] == "}";
    assert forall k :: 0 <= k < 4 ==> KEYS[k] == OBJECT[k];
    MembersParts("{", a, "}", t);
  }

  ghost predicate FindsInList(w: string, list: seq<Address>) {
    Matches(Pattern(Json(w)), ListJson(list))
  }

  /** Every message with a recipient is found by a search for `name`. */
  lemma EveryRecipientHasAName(list: seq<Address>)
    requires list != []
    ensures FindsInList("name", list)
  {
    hide InSyntax, IsStoredIn, Objects, Matches, Contains, Json;
    PatternMeansContains(Json("name"), ListJson(list));
    NoQuoteInJson("name");
    NameIsAKey();
    ObjectsParts("[{", list, Json("name"));
  }

  lemma NameIsAKey()
    ensures InSyntax(KEYS, Json("name"))
  {
    hide Json;
    assert FoldEq("Name", "name");
    OccursInside("", "Name", "", "name");
    assert "" + "Name" + "" == "Name" && KEYS[0] == "Name";
    SyntaxIsPlain("Name");
    ContainedInJson("Name", "name");
  }

  ghost predicate FindsInObject(w: string, a: Address) {
    Matches(Pattern(Json(w)), ObjectJson(a))
  }

  /** A word that fits into no escape and not into the syntax finds exactly the lists that have it. */
  lemma ListSearchIsExact(w: string, list: seq<Address>)
    requires '"' !in w && !FoundInsideEscape(w) && !InSyntax(LIST, w)
    ensures FindsInList(w, list) <==> exists a :: a in list && IsIn(a, w)
  {
    hide FoundInsideEscape, InSyntax, IsIn, IsStoredIn, Contains, Json, ListJson, Matches, Pattern;
    PatternMeansContains(Json(w), ListJson(list));
    NoQuoteInJson(w);
    ListParts(list, Json(w));
    InSyntaxStored(LIST, w);
    forall a ensures IsStoredIn(a, Json(w)) <==> IsIn(a, w) {
      StoredIsIn(a, w);
    }
  }

  lemma ObjectSearchIsExact(w: string, a: Address)
    requires '"' !in w && !FoundInsideEscape(w) && !InSyntax(OBJECT, w)
    ensures FindsInObject(w, a) <==> IsIn(a, w)
  {
    hide FoundInsideEscape, InSyntax, IsIn, IsStoredIn, Contains, Json, ObjectJson, Matches, Pattern;
    PatternMeansContains(Json(w), ObjectJson(a));
    NoQuoteInJson(w);
    ObjectParts(a, Json(w));
    InSyntaxStored(OBJECT, w);
    StoredIsIn(a, w);
  }

  lemma NothingIsIn(w: string)
    requires w != ""
    ensures !IsIn(Address("", ""), w)
  {
    ShorterContainsNot("", w);
  }

  lemma NothingIsFound(w: string, s: string)
    ensures w == "" ==> Contains(s, Json(w))
  {
    if w == "" {
      EmptyOccurs(s);
    }
  }

  lemma NothingIsSyntax()
    ensures InSyntax(LIST, "")
  {
    EmptyOccurs(LIST[4]);
    assert Contains(LIST[4], "") && LIST[4] in LIST;
  }

  /** An address that is found although it does not have the word. */
  lemma FoundInEscape(w: string) returns (a: Address)
    requires FoundInsideEscape(w)
    ensures IsStoredIn(a, Json(w)) && !IsIn(a, w)
  {
    assert w != "";
    hide FoundInsideEscape, Json, Matches, Pattern, Contains;
    JsonSearchIsExactExactlyWhen(w);
    var x :| Matches(Pattern(Json(w)), Json(x)) != Contains(x, w);
    PatternMeansContains(Json(w), Json(x));
    if Contains(x, w) {
      ContainedInJson(x, w);
    }
    ShorterContainsNot("", w);
    a := Address(x, "");
  }

  /** A list that is found although no address of it has the word. */
  lemma FoundInList(w: string) returns (list: seq<Address>)
    requires '"' !in w && (FoundInsideEscape(w) || InSyntax(LIST, w))
    ensures FindsInList(w, list) && forall a :: a in list ==> !IsIn(a, w)
  {
    hide FoundInsideEscape, InSyntax, IsIn, IsStoredIn, Contains, Json, Matches, Pattern, Objects;
    NoQuoteInJson(w);
    if FoundInsideEscape(w) {
      var a := FoundInEscape(w);
      list := [a];
      ListParts(list, Json(w));
      assert a in list;
    } else {
      InSyntaxStored(LIST, w);
      NothingIsFound(w, "{}");
      if Contains("{}", Json(w)) {
        list := [];
      } else {
        list := [Address("", ""), Address("", "")];
        ListParts(list, Json(w));
        NothingIsIn(w);
      }
    }
    PatternMeansContains(Json(w), ListJson(list));
  }

  lemma FoundInObject(w: string) returns (a: Address)
    requires w != "" && '"' !in w && (FoundInsideEscape(w) || InSyntax(OBJECT, w))
    ensures FindsInObject(w, a) && !IsIn(a, w)
  {
    hide FoundInsideEscape, InSyntax, IsIn, IsStoredIn, Contains, Json, Matches, Pattern, ObjectJson;
    NoQuoteInJson(w);
    if FoundInsideEscape(w) {
      a := FoundInEscape(w);
    } else {
      InSyntaxStored(OBJECT, w);
      a := Address("", "");
      NothingIsIn(w);
    }
    ObjectParts(a, Json(w));
    PatternMeansContains(Json(w), ObjectJson(a));
  }

  /** The search for a word in lists of addresses is exact, for all lists, if and only if the word fits into no escape
      and not into the syntax of the stored list. */
  lemma ListSearchIsExactExactlyWhen(w: string)
    requires '"' !in w
    ensures (forall list :: FindsInList(w, list) <==> exists a :: a in list && IsIn(a, w))
            <==> !FoundInsideEscape(w) && !InSyntax(LIST, w)
  {
    hide FoundInsideEscape, InSyntax, IsIn, FindsInList;
    if FoundInsideEscape(w) || InSyntax(LIST, w) {
      var list := FoundInList(w);
    } else {
      forall list ensures FindsInList(w, list) <==> exists a :: a in list && IsIn(a, w) {
        ListSearchIsExact(w, list);
      }
    }
  }

  /** The same for the sender. */
  lemma ObjectSearchIsExactExactlyWhen(w: string)
    requires w != "" && '"' !in w
    ensures (forall a :: FindsInObject(w, a) <==> IsIn(a, w)) <==> !FoundInsideEscape(w) && !InSyntax(OBJECT, w)
  {
    hide FoundInsideEscape, InSyntax, IsIn, FindsInObject;
    if FoundInsideEscape(w) || InSyntax(OBJECT, w) {
      var a := FoundInObject(w);
    } else {
      forall a ensures FindsInObject(w, a) <==> IsIn(a, w) {
        ObjectSearchIsExact(w, a);
      }
    }
  }
}
