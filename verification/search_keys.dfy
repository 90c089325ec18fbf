/** What each kind of search term finds, key by key, in any case of letters. A term that is a key and words is
    written here as the two, one after the other. */
module SearchKeys {
  import opened Basics
  import opened Like
  import opened TextRuns
  import opened AddressJson
  import opened Search

  // ---------------------------------------------------------------- terms with a key

  lemma {:induction false} LowerConcat(a: string, b: string)
    ensures Lower(a + b) == Lower(a) + Lower(b)
  {
    if a == "" {
      assert a + b == b;
    } else {
      assert (a + b)[1..] == a[1..] + b;
      LowerConcat(a[1..], b);
    }
  }

  predicate StartsWithLetter(lw: string) {
    lw != "" && 'a' <= lw[0] <= 'z'
  }

  lemma LetterIsNoSign(c: char)
    requires 'a' <= Fold(c) <= 'z'
    ensures c != '-' && c != '!' && !IsBlank(c)
  {
  }

  /** A term that starts with a key is not blank and not an exclusion. */
  lemma KeyedTerm(env: Env, key: string, words: string)
    requires StartsWithLetter(Lower(key))
    ensures TermClause(env, key + words) == ClauseOf(env, key + words, false)
    ensures |Lower(key)| == |key| && Lower(key + words) == Lower(key) + Lower(words)
    ensures (key + words)[|key|..] == words
  {
    hide ClauseOf, IsBlank, CleanString;
    var term := key + words;
    LowerLength(key);
    LowerConcat(key, words);
    LetterIsNoSign(key[0]);
    CleansToNothing(term);
    assert term[0] == key[0] && term[0] in term;
  }

  /** The columns of addresses, by their keys. */
  ghost predicate IsAddressKey(lw: string, row: Row, column: string) {
    || (lw == "to:" && column == row.to)
    || (lw == "from:" && column == row.from)
    || (lw == "cc:" && column == row.cc)
    || (lw == "bcc:" && column == row.bcc)
    || (lw == "reply-to:" && column == row.replyTo)
  }

  /** The stored addresses contain the words as they are written in JSON; no words are in all of them. */
  ghost predicate IsInColumn(words: string, column: string) {
    CleanString(words) == "" || Contains(column, Json(CleanString(words)))
  }

  lemma ToKey(lw: string)
    requires "to:" <= lw
    ensures KeyOf(lw) == AddressKey(To, 3)
  {
  }

  lemma FromKey(lw: string)
    requires "from:" <= lw
    ensures KeyOf(lw) == AddressKey(From, 5)
  {
    assert lw[0] == 'f';
  }

  lemma CcKey(lw: string)
    requires "cc:" <= lw
    ensures KeyOf(lw) == AddressKey(Cc, 3)
  {
    assert lw[0] == 'c';
  }

  lemma BccKey(lw: string)
    requires "bcc:" <= lw
    ensures KeyOf(lw) == AddressKey(Bcc, 4)
  {
    assert lw[0] == 'b';
  }

  lemma ReplyToKey(lw: string)
    requires "reply-to:" <= lw
    ensures KeyOf(lw) == AddressKey(ReplyTo, 9)
  {
    assert lw[0] == 'r';
  }

  /** The address keys find the messages whose addresses of that kind contain the words. */
  lemma AddressSearchMeaning(env: Env, key: string, words: string, row: Row, column: string)
    requires IsAddressKey(Lower(key), row, column)
    ensures TermHolds(env, key + words, row) <==> IsInColumn(words, column)
  {
    hide Pattern, Matches, Contains, CleanString, Json, KeyOf, Lower;
    KeyedTerm(env, key, words);
    var lw := Lower(key) + Lower(words);
    if Lower(key) == "to:" { ToKey(lw); }
    else if Lower(key) == "from:" { FromKey(lw); }
    else if Lower(key) == "cc:" { CcKey(lw); }
    else if Lower(key) == "bcc:" { BccKey(lw); }
    else { ReplyToKey(lw); }
    PatternMeansContains(Json(CleanString(words)), column);
  }

  /** addressed: looks in all five of them. */
  lemma AddressedSearchMeaning(env: Env, key: string, words: string, row: Row)
    requires Lower(key) == "addressed:"
    ensures TermHolds(env, key + words, row)
            <==> || IsInColumn(words, row.to) || IsInColumn(words, row.from) || IsInColumn(words, row.cc)
                 || IsInColumn(words, row.bcc) || IsInColumn(words, row.replyTo)
  {
    hide Pattern, Matches, Contains, CleanString, KeyOf, Lower, Json, FoldEq, Admits, TermHolds, ClauseOf, TermClause;
    KeyedTerm(env, key, words);
    AddressedHasKey(Lower(key) + Lower(words));
    AddressedClause(env, key + words, row);
  }

  lemma AddressedClause(env: Env, term: string, row: Row)
    requires KeyOf(Lower(term)) == AddressedKey && |term| >= 10
    requires TermClause(env, term) == ClauseOf(env, term, false)
    ensures TermHolds(env, term, row)
            <==> || IsInColumn(term[10..], row.to) || IsInColumn(term[10..], row.from) || IsInColumn(term[10..], row.cc)
                 || IsInColumn(term[10..], row.bcc) || IsInColumn(term[10..], row.replyTo)
  {
    hide Pattern, Matches, Contains, CleanString, KeyOf, Lower, Json, FoldEq, TermClause;
    var w := Json(CleanString(term[10..]));
    PatternMeansContains(w, row.to);
    PatternMeansContains(w, row.from);
    PatternMeansContains(w, row.cc);
    PatternMeansContains(w, row.bcc);
    PatternMeansContains(w, row.replyTo);
  }

  lemma AddressedHasKey(lw: string)
    requires "addressed:" <= lw
    ensures KeyOf(lw) == AddressedKey
  {
    assert lw[0] == 'a';
  }

  /** subject: finds the subjects that contain the words as they are written. */
  lemma SubjectSearchMeaning(env: Env, key: string, words: string, row: Row)
    requires Lower(key) == "subject:"
    ensures TermHolds(env, key + words, row) <==> Contains(row.subject, words)
  {
    hide Pattern, Matches, Contains, CleanString, KeyOf, Lower, Json, FoldEq, Admits, TermHolds, ClauseOf, TermClause;
    KeyedTerm(env, key, words);
    SubjectHasKey(Lower(key) + Lower(words));
    SubjectClause(env, key + words, row);
  }

  lemma SubjectClause(env: Env, term: string, row: Row)
    requires KeyOf(Lower(term)) == SubjectKey && |term| >= 8
    requires TermClause(env, term) == ClauseOf(env, term, false)
    ensures TermHolds(env, term, row) <==> Contains(row.subject, term[8..])
  {
    hide Pattern, Matches, Contains, CleanString, KeyOf, Lower, Json, FoldEq, TermClause;
    NothingIsContained(row.subject);
    PatternMeansContains(term[8..], row.subject);
  }

  lemma NothingIsContained(s: string)
    ensures Contains(s, "")
  {
    EmptyOccurs(s);
  }

  lemma SubjectHasKey(lw: string)
    requires "subject:" <= lw
    ensures KeyOf(lw) == SubjectKey
  {
    assert lw[0] == 's' && lw[1] == 'u';
  }

  /** message-id: finds the ids that contain the cleaned words. */
  lemma MessageIdSearchMeaning(env: Env, key: string, words: string, row: Row)
    requires Lower(key) == "message-id:"
    ensures TermHolds(env, key + words, row) <==> Contains(row.messageId, CleanString(words))
  {
    hide Pattern, Matches, Contains, CleanString, KeyOf, Lower, Json, FoldEq, Admits, TermHolds, ClauseOf, TermClause;
    KeyedTerm(env, key, words);
    MessageIdHasKey(Lower(key) + Lower(words));
    MessageIdClause(env, key + words, row);
  }

  lemma MessageIdClause(env: Env, term: string, row: Row)
    requires KeyOf(Lower(term)) == MessageIdKey && |term| >= 11
    requires TermClause(env, term) == ClauseOf(env, term, false)
    ensures TermHolds(env, term, row) <==> Contains(row.messageId, CleanString(term[11..]))
  {
    hide Pattern, Matches, Contains, CleanString, KeyOf, Lower, Json, FoldEq, TermClause;
    NothingIsContained(row.messageId);
    PatternMeansContains(CleanString(term[11..]), row.messageId);
  }

  lemma MessageIdHasKey(lw: string)
    requires "message-id:" <= lw
    ensures KeyOf(lw) == MessageIdKey
  {
    assert lw[0] == 'm';
  }

  /** tag: finds the messages with that tag, whatever its case. */
  lemma TagSearchMeaning(env: Env, key: string, words: string, row: Row)
    requires Lower(key) == "tag:"
    ensures TermHolds(env, key + words, row)
            <==> CleanString(words) == "" || exists t :: t in row.tags && FoldEq(t, CleanString(words))
  {
    hide Pattern, Matches, Contains, CleanString, KeyOf, Lower, Json, FoldEq, Admits, TermHolds, ClauseOf, TermClause;
    KeyedTerm(env, key, words);
    TagHasKey(Lower(key) + Lower(words));
    TagClause(env, key + words, row);
  }

  lemma TagClause(env: Env, term: string, row: Row)
    requires KeyOf(Lower(term)) == TagKey && |term| >= 4
    requires TermClause(env, term) == ClauseOf(env, term, false)
    ensures TermHolds(env, term, row)
            <==> CleanString(term[4..]) == "" || exists t :: t in row.tags && FoldEq(t, CleanString(term[4..]))
  {
    hide Pattern, Matches, Contains, CleanString, KeyOf, Lower, Json, FoldEq, TermClause;
  }

  lemma TagHasKey(lw: string)
    requires "tag:" <= lw
    ensures KeyOf(lw) == TagKey
  {
    assert lw[0] == 't' && lw[1] == 'a';
  }

  // ---------------------------------------------------------------- dates and sizes

  lemma DateAdmits(env: Env, word: string, from: bool, row: Row)
    ensures Admits(DateClause(env, word, from), row)
            <==> word == "" || env.parseDate(word).None?
                 || if from then row.created >= env.parseDate(word).value else row.created <= env.parseDate(word).value
  {
  }

  lemma SizeAdmits(size: nat, larger: bool, word: string, row: Row)
    ensures Holds(SizeClause(size, larger, FieldLike(SearchText, false, Pattern(word))), row)
            <==> if size == 0 then Contains(row.searchText, word)
                 else if larger then row.size > size
                 else row.size < size
  {
    hide Pattern, Matches, Contains;
    PatternMeansContains(word, row.searchText);
  }

  /** after: and before: keep the messages from the date on, and up to it; a date that cannot be read is ignored. */
  lemma AfterSearchMeaning(env: Env, key: string, words: string, row: Row)
    requires Lower(key) == "after:"
    ensures TermHolds(env, key + words, row)
            <==> CleanString(words) == "" || env.parseDate(CleanString(words)).None?
                 || row.created >= env.parseDate(CleanString(words)).value
  {
    hide Pattern, Matches, Contains, CleanString, KeyOf, Lower, Json, FoldEq, Admits, TermHolds, ClauseOf, TermClause;
    KeyedTerm(env, key, words);
    AfterHasKey(Lower(key) + Lower(words));
    AfterClause(env, key + words, row);
  }

  lemma AfterClause(env: Env, term: string, row: Row)
    requires KeyOf(Lower(term)) == AfterKey && |term| >= 6
    requires TermClause(env, term) == ClauseOf(env, term, false)
    ensures TermHolds(env, term, row)
            <==> CleanString(term[6..]) == "" || env.parseDate(CleanString(term[6..])).None?
                 || row.created >= env.parseDate(CleanString(term[6..])).value
  {
    hide Pattern, Matches, Contains, CleanString, KeyOf, Lower, DateClause, SizeClause, TermClause, Holds;
    DateAdmits(env, CleanString(term[6..]), true, row);
  }

  lemma AfterHasKey(lw: string)
    requires "after:" <= lw
    ensures KeyOf(lw) == AfterKey
  {
    assert lw[0] == 'a' && lw[1] == 'f';
  }

  lemma BeforeSearchMeaning(env: Env, key: string, words: string, row: Row)
    requires Lower(key) == "before:"
    ensures TermHolds(env, key + words, row)
            <==> CleanString(words) == "" || env.parseDate(CleanString(words)).None?
                 || row.created <= env.parseDate(CleanString(words)).value
  {
    hide Pattern, Matches, Contains, CleanString, KeyOf, Lower, Json, FoldEq, Admits, TermHolds, ClauseOf, TermClause;
    KeyedTerm(env, key, words);
    BeforeHasKey(Lower(key) + Lower(words));
    BeforeClause(env, key + words, row);
  }

  lemma BeforeClause(env: Env, term: string, row: Row)
    requires KeyOf(Lower(term)) == BeforeKey && |term| >= 7
    requires TermClause(env, term) == ClauseOf(env, term, false)
    ensures TermHolds(env, term, row)
            <==> CleanString(term[7..]) == "" || env.parseDate(CleanString(term[7..])).None?
                 || row.created <= env.parseDate(CleanString(term[7..])).value
  {
    hide Pattern, Matches, Contains, CleanString, KeyOf, Lower, DateClause, SizeClause, TermClause, Holds;
    DateAdmits(env, CleanString(term[7..]), false, row);
  }

  lemma BeforeHasKey(lw: string)
    requires "before:" <= lw
    ensures KeyOf(lw) == BeforeKey
  {
    assert lw[0] == 'b' && lw[1] == 'e';
  }

  /** larger: and smaller: compare sizes; without a size the whole term is a word. */
  lemma LargerSearchMeaning(env: Env, key: string, words: string, row: Row)
    requires Lower(key) == "larger:"
    ensures var size := env.sizeToBytes(CleanString(words));
            TermHolds(env, key + words, row)
            <==> if size > 0 then row.size > size else Contains(row.searchText, CleanString(key + words))
  {
    hide Pattern, Matches, Contains, CleanString, KeyOf, Lower, Json, FoldEq, Admits, TermHolds, ClauseOf, TermClause;
    KeyedTerm(env, key, words);
    LargerHasKey(Lower(key) + Lower(words));
    LargerClause(env, key + words, row);
  }

  lemma LargerClause(env: Env, term: string, row: Row)
    requires KeyOf(Lower(term)) == LargerKey && |term| >= 7
    requires TermClause(env, term) == ClauseOf(env, term, false)
    ensures var size := env.sizeToBytes(CleanString(term[7..]));
            TermHolds(env, term, row)
            <==> if size > 0 then row.size > size else Contains(row.searchText, CleanString(term))
  {
    hide Pattern, Matches, Contains, CleanString, KeyOf, Lower, DateClause, SizeClause, TermClause, Holds;
    SizeAdmits(env.sizeToBytes(CleanString(term[7..])), true, CleanString(term), row);
  }

  lemma LargerHasKey(lw: string)
    requires "larger:" <= lw
    ensures KeyOf(lw) == LargerKey
  {
    assert lw[0] == 'l';
  }

  lemma SmallerSearchMeaning(env: Env, key: string, words: string, row: Row)
    requires Lower(key) == "smaller:"
    ensures var size := env.sizeToBytes(CleanString(words));
            TermHolds(env, key + words, row)
            <==> if size > 0 then row.size < size else Contains(row.searchText, CleanString(key + words))
  {
    hide Pattern, Matches, Contains, CleanString, KeyOf, Lower, Json, FoldEq, Admits, TermHolds, ClauseOf, TermClause;
    KeyedTerm(env, key, words);
    SmallerHasKey(Lower(key) + Lower(words));
    SmallerClause(env, key + words, row);
  }

  lemma SmallerClause(env: Env, term: string, row: Row)
    requires KeyOf(Lower(term)) == SmallerKey && |term| >= 8
    requires TermClause(env, term) == ClauseOf(env, term, false)
    ensures var size := env.sizeToBytes(CleanString(term[8..]));
            TermHolds(env, term, row)
            <==> if size > 0 then row.size < size else Contains(row.searchText, CleanString(term))
  {
    hide Pattern, Matches, Contains, CleanString, KeyOf, Lower, DateClause, SizeClause, TermClause, Holds;
    SizeAdmits(env.sizeToBytes(CleanString(term[8..])), false, CleanString(term), row);
  }

  lemma SmallerHasKey(lw: string)
    requires "smaller:" <= lw
    ensures KeyOf(lw) == SmallerKey
  {
    assert lw[0] == 's' && lw[1] == 'm';
  }

  // ---------------------------------------------------------------- terms that are a key

  lemma KeyAlone(env: Env, term: string)
    requires StartsWithLetter(Lower(term))
    ensures TermClause(env, term) == ClauseOf(env, term, false)
  {
    hide ClauseOf, CleanString, Lower;
    KeyedTerm(env, term, "");
    assert term + "" == term;
  }

  lemma ReadSearchMeaning(env: Env, term: string, row: Row)
    ensures Lower(term) == "is:read" ==> (TermHolds(env, term, row) <==> row.read)
    ensures Lower(term) == "is:unread" ==> (TermHolds(env, term, row) <==> !row.read)
  {
    if Lower(term) == "is:read" || Lower(term) == "is:unread" {
      IsKeys(Lower(term));
      hide CleanString, KeyOf, Lower;
      KeyAlone(env, term);
    }
  }

  lemma TaggedSearchMeaning(env: Env, term: string, row: Row)
    requires Lower(term) == "is:tagged"
    ensures TermHolds(env, term, row) <==> row.tags != {}
  {
    IsKeys(Lower(term));
    hide CleanString, KeyOf, Lower;
    KeyAlone(env, term);
  }

  lemma InlineSearchMeaning(env: Env, term: string, row: Row)
    requires Lower(term) == "has:inline" || Lower(term) == "has:inlines"
    ensures TermHolds(env, term, row) <==> row.inlines > 0
  {
    InlineIsKey(Lower(term));
    hide CleanString, KeyOf, Lower;
    KeyAlone(env, term);
  }

  lemma AttachmentSearchMeaning(env: Env, term: string, row: Row)
    requires Lower(term) == "has:attachment" || Lower(term) == "has:attachments"
    ensures TermHolds(env, term, row) <==> row.attachments > 0
  {
    AttachmentIsKey(Lower(term));
    hide CleanString, KeyOf, Lower;
    KeyAlone(env, term);
  }

  lemma IsKeys(lw: string)
    ensures lw == "is:read" ==> KeyOf(lw) == ReadKey
    ensures lw == "is:unread" ==> KeyOf(lw) == UnreadKey
    ensures lw == "is:tagged" ==> KeyOf(lw) == TaggedKey
  {
    if lw in {"is:read", "is:unread", "is:tagged"} {
      assert lw[0] == 'i' && (lw == "is:read" <==> lw[3] == 'r') && (lw == "is:unread" <==> lw[3] == 'u');
    }
  }

  lemma InlineIsKey(lw: string)
    requires lw == "has:inline" || lw == "has:inlines"
    ensures KeyOf(lw) == InlineKey && StartsWithLetter(lw)
  {
    assert lw[0] == 'h';
  }

  lemma AttachmentIsKey(lw: string)
    requires lw == "has:attachment" || lw == "has:attachments"
    ensures KeyOf(lw) == AttachmentKey && StartsWithLetter(lw)
  {
    assert lw[0] == 'h' && lw[4] == 'a';
  }

  // ---------------------------------------------------------------- words

  /** What a term that is only words must not start with, */
  const PREFIXES: seq<string> := [
    "to:", "from:", "cc:", "bcc:", "reply-to:", "addressed:", "subject:", "message-id:", "tag:",
    "after:", "before:", "larger:", "smaller:"]

  /** and what it must not be. */
  const WHOLE: seq<string> := [
    "is:read", "is:unread", "is:tagged", "has:inline", "has:inlines", "has:attachment", "has:attachments"]

  ghost predicate HasNoKey(lw: string) {
    lw !in WHOLE && forall i :: 0 <= i < |PREFIXES| ==> !(PREFIXES[i] <= lw)
  }

  /** Words without a key find the messages whose search text contains them. A sign alone is a word. */
  lemma WordSearchMeaning(env: Env, term: string, row: Row)
    requires HasNoKey(Lower(term)) && (|term| <= 1 || (term[0] != '-' && term[0] != '!'))
    ensures TermHolds(env, term, row) <==> Contains(row.searchText, CleanString(term))
  {
    hide HasNoKey, Contains, CleanString, KeyOf, Lower, TermHolds;
    NoKeyFor(Lower(term));
    UnkeyedMeaning(env, term, row);
  }

  lemma UnkeyedMeaning(env: Env, term: string, row: Row)
    requires KeyOf(Lower(term)) == NoKey && !IsExclusion(term)
    ensures TermHolds(env, term, row) <==> Contains(row.searchText, CleanString(term))
  {
    hide Pattern, Matches, Contains, CleanString, KeyOf, Lower, IsExclusion;
    NothingIsContained(row.searchText);
    PatternMeansContains(CleanString(term), row.searchText);
  }

  lemma NoKeyFor(lw: string)
    requires HasNoKey(lw)
    ensures KeyOf(lw) == NoKey
  {
    var p, w := PREFIXES, WHOLE;
    assert |p| == 13 && |w| == 7;
    assert !(p[0] <= lw) && !(p[1] <= lw) && !(p[2] <= lw) && !(p[3] <= lw) && !(p[4] <= lw) && !(p[5] <= lw);
    assert !(p[6] <= lw) && !(p[7] <= lw) && !(p[8] <= lw) && !(p[9] <= lw) && !(p[10] <= lw);
    assert !(p[11] <= lw) && !(p[12] <= lw);
    assert w[0] != lw && w[1] != lw && w[2] != lw && w[3] != lw && w[4] != lw && w[5] != lw && w[6] != lw;
  }

  // ---------------------------------------------------------------- addresses

  /** No match is missed: an address key finds every message with a name or address that contains the words, wherever
      in the stored list the name stands. */
  lemma AddressSearchFinds(
    env: Env, key: string, words: string, row: Row, column: string, before: string, name: string, after: string)
    requires IsAddressKey(Lower(key), row, column) && column == before + Json(name) + after
    requires Contains(name, CleanString(words))
    ensures TermHolds(env, key + words, row)
  {
    hide Pattern, Matches, Contains, CleanString, Json, IsAddressKey, Lower;
    AddressSearchMeaning(env, key, words, row, column);
    JsonSearchFinds(name, CleanString(words), before, after);
    PatternMeansContains(Json(CleanString(words)), column);
  }

  lemma NoQuoteInWord(s: string)
    ensures '"' !in CleanString(s)
  {
    CleanStringIsClean(s);
  }

  /** Words that fit into no escape and not into the syntax of the stored list: a key for recipients finds exactly the
      messages with a name or an address that contains them. */
  lemma AddressSearchIsExact(env: Env, key: string, words: string, row: Row, column: string, list: seq<Address>)
    requires IsAddressKey(Lower(key), row, column) && column == ListJson(list)
    requires !FoundInsideEscape(CleanString(words)) && !InSyntax(LIST, CleanString(words))
    ensures TermHolds(env, key + words, row) <==> exists a :: a in list && IsIn(a, CleanString(words))
  {
    hide Pattern, Matches, Contains, CleanString, Json, IsAddressKey, Lower, FoundInsideEscape, IsIn, ListJson, LIST;
    var w := CleanString(words);
    NoQuoteInWord(words);
    NothingIsSyntax();
    AddressSearchMeaning(env, key, words, row, column);
    ListSearchIsExact(w, list);
    PatternMeansContains(Json(w), column);
  }

  /** The same for the sender. */
  lemma SenderSearchIsExact(env: Env, key: string, words: string, row: Row, a: Address)
    requires Lower(key) == "from:" && row.from == ObjectJson(a) && CleanString(words) != ""
    requires !FoundInsideEscape(CleanString(words)) && !InSyntax(OBJECT, CleanString(words))
    ensures TermHolds(env, key + words, row) <==> IsIn(a, CleanString(words))
  {
    hide Pattern, Matches, Contains, CleanString, Json, Lower, FoundInsideEscape, IsIn, ObjectJson, OBJECT;
    var w := CleanString(words);
    NoQuoteInWord(words);
    AddressSearchMeaning(env, key, words, row, row.from);
    ObjectSearchIsExact(w, a);
    PatternMeansContains(Json(w), row.from);
  }
}
