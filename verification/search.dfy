/** From search arguments to the conditions of a query, and the messages those conditions select. Dates
    and sizes are parsed by the environment. */
module Search {
  import opened Basics
  import opened Like
  import opened ArgsParser
  import opened TextRuns

  // ---------------------------------------------------------------- cleanString

  function CleanChar(c: char): char {
    if c == '\U{FEFF}' || c == '\n' || c == '\t' || c == '>' || c == '<' || c == '"' || c == ',' || c == ';'
       || c == '(' || c == ')' then ' ' else c
  }

  predicate IsBlank(c: char) {
    IsSpace(CleanChar(c))
  }

  /** The words of s, joined by single spaces. `word` is the word being read. */
  function Words(s: string, word: string): string
    decreases |s|
  {
    if s == "" then word
    else if IsBlank(s[0]) then
      var rest := Words(s[1..], "");
      if word == "" || rest == "" then word + rest else word + " " + rest
    else Words(s[1..], word + [CleanChar(s[0])])
  }

  function CleanString(s: string): string {
    Lower(Words(s, ""))
  }

  lemma {:induction false} WordsBlank(s: string, word: string)
    ensures Words(s, word) == "" <==> word == "" && forall c :: c in s ==> IsBlank(c)
    decreases |s|
  {
    if s != "" {
      assert s == [s[0]] + s[1..];
      if IsBlank(s[0]) {
        WordsBlank(s[1..], "");
      } else {
        WordsBlank(s[1..], word + [CleanChar(s[0])]);
      }
    }
  }

  predicate IsWordChar(c: char) {
    !IsBlank(c)
  }

  lemma {:induction false} WordsAreRuns(s: string, word: string)
    requires AllKept(IsWordChar, word)
    ensures Words(s, word) == WithRuns(s, word)
    decreases |s|
  {
    if s != "" {
      WordCharIsItself(s[0]);
      hide WithRuns, CleanChar;
      if IsBlank(s[0]) {
        WordsAreRuns(s[1..], "");
        BlankInFront(s, word);
      } else {
        WordsAreRuns(s[1..], word + [s[0]]);
        LetterInFront(s, word);
      }
    }
  }

  lemma WordCharIsItself(c: char)
    ensures IsWordChar(c) ==> CleanChar(c) == c
  {
  }

  /** The runs of s, of which the first goes on from word if s begins with it. */
  function WithRuns(s: string, word: string): string {
    var runs := Runs(IsWordChar, s);
    if word == "" then Spaced(runs)
    else if s != "" && IsWordChar(s[0]) then word + Spaced(runs)
    else if runs == [] then word
    else word + " " + Spaced(runs)
  }

  lemma BlankInFront(s: string, word: string)
    requires s != "" && IsBlank(s[0])
    ensures var rest := WithRuns(s[1..], "");
            WithRuns(s, word) == if word == "" || rest == "" then word + rest else word + " " + rest
  {
    assert !IsWordChar(' ');
    hide IsWordChar, Runs, Spaced;
    SpacedFrom(IsWordChar, s);
    NoTextNoRuns(s[1..]);
  }

  lemma NoTextNoRuns(s: string)
    ensures Spaced(Runs(IsWordChar, s)) == "" <==> Runs(IsWordChar, s) == []
  {
    assert !IsWordChar(' ');
    hide IsWordChar;
    RunsAreRuns(IsWordChar, s);
    SpacedIsSpaced(IsWordChar, Runs(IsWordChar, s));
  }

  lemma LetterInFront(s: string, word: string)
    requires s != "" && IsWordChar(s[0])
    ensures WithRuns(s, word) == WithRuns(s[1..], word + [s[0]])
  {
    hide IsWordChar, Runs, Spaced;
    SpacedFrom(IsWordChar, s);
    NoTextNoRuns(s[1..]);
    RunsNeedText(IsWordChar, s[1..]);
    var t := Spaced(Runs(IsWordChar, s[1..]));
    assert word + ([s[0]] + t) == word + [s[0]] + t;
    assert word + ([s[0]] + " " + t) == word + [s[0]] + " " + t;
    assert word == "" ==> word + [s[0]] == [s[0]];
  }

  /** The cleaned text is the words of the text, in lower case and with single spaces between them. */
  lemma CleanStringIs(s: string)
    ensures CleanString(s) == Lower(Spaced(Runs(IsWordChar, s)))
  {
    WordsAreRuns(s, "");
  }

  /** No character that is to be cleaned away is left, and no white space but single spaces inside. */
  lemma CleanStringIsClean(s: string)
    ensures forall i :: 0 <= i < |CleanString(s)| ==> CleanString(s)[i] !in "\n\t><\",;()\U{FEFF}"
    ensures IsSpaced(IsWordChar, CleanString(s))
  {
    CleanStringIs(s);
    RunsAreRuns(IsWordChar, s);
    SpacedIsSpaced(IsWordChar, Runs(IsWordChar, s));
    LowerIsSpaced(Spaced(Runs(IsWordChar, s)));
    forall i | 0 <= i < |CleanString(s)| ensures CleanString(s)[i] !in "\n\t><\",;()\U{FEFF}" {
      assert IsWordChar(CleanString(s)[i]) || CleanString(s)[i] == ' ';
    }
  }

  lemma {:induction false} LowerAt(s: string, i: nat)
    requires i < |s|
    ensures |Lower(s)| == |s| && Lower(s)[i] == Fold(s[i])
  {
    LowerLength(s);
    if i > 0 {
      LowerAt(s[1..], i - 1);
    }
  }

  lemma LowerIsSpaced(s: string)
    requires IsSpaced(IsWordChar, s)
    ensures IsSpaced(IsWordChar, Lower(s))
  {
    LowerLength(s);
    forall i | 0 <= i < |s| ensures Lower(s)[i] == Fold(s[i]) && IsWordChar(Fold(s[i])) == IsWordChar(s[i]) {
      LowerAt(s, i);
    }
  }

  /** Cleaning what is clean changes nothing: stored texts and search words are cleaned alike. */
  lemma CleaningAgainChangesNothing(s: string)
    ensures CleanString(CleanString(s)) == CleanString(s)
  {
    hide CleanString;
    CleanStringIsClean(s);
    CleanStringIs(CleanString(s));
    SpacedAsItIs(IsWordChar, CleanString(s));
    CleanStringIs(s);
    LowerTwice(Spaced(Runs(IsWordChar, s)));
  }

  lemma {:induction false} LowerTwice(s: string)
    ensures Lower(Lower(s)) == Lower(s)
  {
    if s != "" {
      LowerTwice(s[1..]);
    }
  }

  /** Only blank terms are cleaned away entirely. */
  lemma CleansToNothing(s: string)
    ensures CleanString(s) == "" <==> forall c :: c in s ==> IsBlank(c)
  {
    LowerLength(Words(s, ""));
    WordsBlank(s, "");
  }

  // ---------------------------------------------------------------- conditions

  datatype Field = To | From | Cc | Bcc | ReplyTo | Subject | MessageId | SearchText

  datatype Row = Row(
    to: string, from: string, cc: string, bcc: string, replyTo: string,   // JSON
    subject: string, messageId: string, searchText: string,
    created: int, size: nat, read: bool, inlines: nat, attachments: nat,
    tags: set<string>)
  {
    function Text(f: Field): string {
      match f
      case To => to
      case From => from
      case Cc => cc
      case Bcc => bcc
      case ReplyTo => replyTo
      case Subject => subject
      case MessageId => messageId
      case SearchText => searchText
    }
  }

  datatype Clause =
    | FieldLike(field: Field, not: bool, pattern: string)
    | AnyAddressLike(not: bool, pattern: string)
    | HasTag(not: bool, name: string)
    | IsTagged(not: bool)
    | IsRead(read: bool)
    | HasInlines(not: bool)
    | HasAttachments(not: bool)
    | CreatedFrom(ts: int)
    | CreatedTo(ts: int)
    | LargerThan(size: nat)
    | SmallerThan(size: nat)

  predicate AddressedAnywhere(row: Row, p: string) {
    Matches(p, row.to) || Matches(p, row.from) || Matches(p, row.cc) || Matches(p, row.bcc) || Matches(p, row.replyTo)
  }

  predicate AddressedNowhere(row: Row, p: string) {
    && !Matches(p, row.to) && !Matches(p, row.from) && !Matches(p, row.cc) && !Matches(p, row.bcc)
    && !Matches(p, row.replyTo)
  }

  ghost predicate Holds(c: Clause, row: Row) {
    match c
    case FieldLike(f, not, p) => if not then !Matches(p, row.Text(f)) else Matches(p, row.Text(f))
    case AnyAddressLike(not, p) => if not then AddressedNowhere(row, p) else AddressedAnywhere(row, p)
    case HasTag(not, name) =>
      var has := exists t :: t in row.tags && FoldEq(t, name);
      if not then !has else has
    case IsTagged(not) => if not then row.tags == {} else row.tags != {}
    case IsRead(read) => row.read == read
    case HasInlines(not) => if not then row.inlines == 0 else row.inlines > 0
    case HasAttachments(not) => if not then row.attachments == 0 else row.attachments > 0
    case CreatedFrom(ts) => row.created >= ts
    case CreatedTo(ts) => row.created <= ts
    case LargerThan(size) => row.size > size
    case SmallerThan(size) => row.size < size
  }

  // ---------------------------------------------------------------- from terms to conditions

  datatype Env = Env(parseDate: string -> Option<int>, sizeToBytes: string -> nat)

  function AddressClause(f: Field, exclude: bool, word: string): Option<Clause> {
    if word == "" then None else Some(FieldLike(f, exclude, Pattern(Json(word))))
  }

  function TextClause(f: Field, exclude: bool, word: string): Option<Clause> {
    if word == "" then None else Some(FieldLike(f, exclude, Pattern(word)))
  }

  function DateClause(env: Env, word: string, from: bool): Option<Clause> {
    if word == "" then None
    else match env.parseDate(word)
      case None => None
      case Some(ts) => Some(if from then CreatedFrom(ts) else CreatedTo(ts))
  }

  function SizeClause(size: nat, larger: bool, text: Clause): Clause {
    if size == 0 then text else if larger then LargerThan(size) else SmallerThan(size)
  }

  datatype Key =
    | AddressKey(field: Field, length: nat)
    | AddressedKey | SubjectKey | MessageIdKey | TagKey
    | ReadKey | UnreadKey | TaggedKey | InlineKey | AttachmentKey
    | AfterKey | BeforeKey | LargerKey | SmallerKey
    | NoKey

  /** The key that a lower-case term starts with, or is. */
  function KeyOf(lw: string): (k: Key)
    ensures k.AddressKey? ==> k.length <= |lw|
  {
    if "to:" <= lw then AddressKey(To, 3)
    else if "from:" <= lw then AddressKey(From, 5)
    else if "cc:" <= lw then AddressKey(Cc, 3)
    else if "bcc:" <= lw then AddressKey(Bcc, 4)
    else if "reply-to:" <= lw then AddressKey(ReplyTo, 9)
    else if "addressed:" <= lw then AddressedKey
    else if "subject:" <= lw then SubjectKey
    else if "message-id:" <= lw then MessageIdKey
    else if "tag:" <= lw then TagKey
    else if lw == "is:read" then ReadKey
    else if lw == "is:unread" then UnreadKey
    else if lw == "is:tagged" then TaggedKey
    else if lw == "has:inline" || lw == "has:inlines" then InlineKey
    else if lw == "has:attachment" || lw == "has:attachments" then AttachmentKey
    else if "after:" <= lw then AfterKey
    else if "before:" <= lw then BeforeKey
    else if "larger:" <= lw then LargerKey
    else if "smaller:" <= lw then SmallerKey
    else NoKey
  }

  /** What follows a key of n characters. */
  function After(w: string, n: nat): string {
    if n <= |w| then w[n..] else ""
  }

  function ClauseOf(env: Env, w: string, exclude: bool): Option<Clause> {
    var text := FieldLike(SearchText, exclude, Pattern(CleanString(w)));
    match KeyOf(Lower(w))
    case AddressKey(f, n) => AddressClause(f, exclude, CleanString(After(w, n)))
    case AddressedKey =>
      var word := CleanString(After(w, 10));
      if word == "" then None else Some(AnyAddressLike(exclude, Pattern(Json(word))))
    case SubjectKey => TextClause(Subject, exclude, After(w, 8))
    case MessageIdKey => TextClause(MessageId, exclude, CleanString(After(w, 11)))
    case TagKey =>
      var word := CleanString(After(w, 4));
      if word == "" then None else Some(HasTag(exclude, word))
    case ReadKey => Some(IsRead(!exclude))
    case UnreadKey => Some(IsRead(exclude))
    case TaggedKey => Some(IsTagged(exclude))
    case InlineKey => Some(HasInlines(exclude))
    case AttachmentKey => Some(HasAttachments(exclude))
    case AfterKey => DateClause(env, CleanString(After(w, 6)), !exclude)
    case BeforeKey => DateClause(env, CleanString(After(w, 7)), exclude)
    case LargerKey => Some(SizeClause(env.sizeToBytes(CleanString(After(w, 7))), !exclude, text))
    case SmallerKey => Some(SizeClause(env.sizeToBytes(CleanString(After(w, 8))), exclude, text))
    case NoKey => Some(text)
  }

  predicate IsExclusion(w: string) {
    |w| > 1 && (w[0] == '-' || w[0] == '!')
  }

  /** The condition of one argument, if it has one. */
  function TermClause(env: Env, term: string): Option<Clause> {
    if CleanString(term) == "" then None
    else if IsExclusion(term) then ClauseOf(env, term[1..], true)
    else ClauseOf(env, term, false)
  }

  function Clauses(env: Env, args: seq<string>): seq<Clause> {
    if args == [] then []
    else
      var before := Clauses(env, args[..|args| - 1]);
      match TermClause(env, args[|args| - 1])
      case None => before
      case Some(c) => before + [c]
  }

  lemma ClausesAppend(env: Env, args: seq<string>, term: string)
    ensures Clauses(env, args + [term])
            == match TermClause(env, term)
               case None => Clauses(env, args)
               case Some(c) => Clauses(env, args) + [c]
  {
    assert (args + [term])[..|args|] == args;
  }

  method SearchQueryBuilder(env: Env, searchString: string) returns (q: seq<Clause>)
    ensures q == Clauses(env, Args(searchString, "", false))
  {
    hide CleanString, ClauseOf, Clauses, Args;
    var args := Parse(searchString);
    q := [];
    assert args[..0] == [] && Clauses(env, []) == [] by { NoClauses(env); }
    for i := 0 to |args|
      invariant q == Clauses(env, args[..i])
    {
      ClausesAppend(env, args[..i], args[i]);
      assert args[..i + 1] == args[..i] + [args[i]];
      var w := args[i];
      if CleanString(w) == "" {
        continue;
      }
      var exclude := false;
      if |w| > 1 && (w[0] == '-' || w[0] == '!') {
        exclude := true;
        w := w[1..];
      }
      match ClauseOf(env, w, exclude) {
        case Some(c) => q := q + [c];
        case None =>
      }
    }
    assert args[..|args|] == args;
  }

  lemma NoClauses(env: Env)
    ensures Clauses(env, []) == []
  {
  }

  ghost predicate Selects(q: seq<Clause>, row: Row) {
    forall i :: 0 <= i < |q| ==> Holds(q[i], row)
  }

  ghost predicate TermHolds(env: Env, term: string, row: Row) {
    Admits(TermClause(env, term), row)
  }

  /** A term without a condition is ignored. */
  ghost predicate Admits(clause: Option<Clause>, row: Row) {
    clause.Some? ==> Holds(clause.value, row)
  }

  lemma SelectsAppend(q: seq<Clause>, c: Clause, row: Row)
    ensures Selects(q + [c], row) <==> Selects(q, row) && Holds(c, row)
  {
    assert forall i :: 0 <= i < |q| ==> (q + [c])[i] == q[i];
    assert (q + [c])[|q|] == c;
  }

  /** The selection is the conjunction of the terms. */
  lemma {:induction false} SelectionIsConjunction(env: Env, args: seq<string>, row: Row)
    ensures Selects(Clauses(env, args), row) <==> forall t :: t in args ==> TermHolds(env, t, row)
  {
    hide TermClause, Selects, Holds;
    if args == [] {
      assert Selects([], row) by { SelectsAll(row); }
    } else {
      var before, last := args[..|args| - 1], args[|args| - 1];
      SelectionIsConjunction(env, before, row);
      assert args == before + [last];
      assert last in args && forall t :: t in before ==> t in args;
      assert forall t :: t in args ==> t in before || t == last;
      ClausesAppend(env, before, last);
      match TermClause(env, last)
      case Some(c) => SelectsAppend(Clauses(env, before), c, row);
      case None => assert TermHolds(env, last, row);
    }
  }

  lemma SelectsAll(row: Row)
    ensures Selects([], row)
  {
  }

  /** The order of the terms, and repeating one, does not matter. */
  lemma TermOrderIsIrrelevant(env: Env, args: seq<string>, other: seq<string>, row: Row)
    requires forall t :: t in args <==> t in other
    ensures Selects(Clauses(env, args), row) <==> Selects(Clauses(env, other), row)
  {
    SelectionIsConjunction(env, args, row);
    SelectionIsConjunction(env, other, row);
  }

  // ---------------------------------------------------------------- exclusion

  lemma ExcludedClause(env: Env, w: string)
    ensures ClauseOf(env, w, true).Some? <==> ClauseOf(env, w, false).Some?
    ensures ClauseOf(env, w, false).Some? ==> Opposite(ClauseOf(env, w, false).value, ClauseOf(env, w, true).value)
  {
    hide KeyOf, CleanString, Pattern, Json, Lower;
  }

  ghost predicate Opposite(c: Clause, d: Clause) {
    match c
    case FieldLike(f, not, p) => d == FieldLike(f, !not, p)
    case AnyAddressLike(not, p) => d == AnyAddressLike(!not, p)
    case HasTag(not, name) => d == HasTag(!not, name)
    case IsTagged(not) => d == IsTagged(!not)
    case IsRead(read) => d == IsRead(!read)
    case HasInlines(not) => d == HasInlines(!not)
    case HasAttachments(not) => d == HasAttachments(!not)
    case CreatedFrom(ts) => d == CreatedTo(ts)
    case CreatedTo(ts) => d == CreatedFrom(ts)
    case LargerThan(size) => d == SmallerThan(size)
    case SmallerThan(size) => d == LargerThan(size)
  }

  /** What excluding a term does to its rows: the exact complement, except that a date keeps the messages
      of that very moment on both sides and a size loses those of that very size from both. */
  ghost predicate Complements(c: Clause, d: Clause, row: Row) {
    if c.CreatedFrom? || c.CreatedTo? then
      (Holds(c, row) || Holds(d, row)) && (Holds(c, row) && Holds(d, row) <==> row.created == c.ts)
    else if c.LargerThan? || c.SmallerThan? then
      !(Holds(c, row) && Holds(d, row)) && (!Holds(c, row) && !Holds(d, row) <==> row.size == c.size)
    else
      Holds(d, row) <==> !Holds(c, row)
  }

  lemma OppositesComplement(c: Clause, d: Clause, row: Row)
    requires Opposite(c, d)
    ensures Complements(c, d, row)
  {
    hide Matches;
  }

  /** For every term that makes a condition, the excluded term makes one too, and the two complement each
      other. */
  lemma ExclusionComplements(env: Env, term: string, sign: char, row: Row)
    requires sign == '-' || sign == '!'
    requires term != "" && !IsExclusion(term) && TermClause(env, term).Some?
    ensures TermClause(env, [sign] + term).Some?
    ensures Complements(TermClause(env, term).value, TermClause(env, [sign] + term).value, row)
  {
    var negated := [sign] + term;
    CleansToNothing(negated);
    assert negated[0] in negated && !IsBlank(sign);
    assert negated[1..] == term;
    ExcludedClause(env, term);
    OppositesComplement(TermClause(env, term).value, TermClause(env, negated).value, row);
  }

  lemma LetterlessHasNoKey(lw: string)
    requires lw != "" && !('a' <= lw[0] <= 'z')
    ensures KeyOf(lw) == NoKey
  {
  }

  lemma UnkeyedClause(env: Env, w: string, exclude: bool)
    requires w != "" && IsBlank(w[0])
    ensures ClauseOf(env, w, exclude) == Some(FieldLike(SearchText, exclude, Pattern(CleanString(w))))
  {
    hide CleanString, Pattern, KeyOf;
    LowerLength(w);
    assert Lower(w)[0] == Fold(w[0]);
    LetterlessHasNoKey(Lower(w));
  }

  /** A blank term is ignored, but excluding it excludes every message. */
  lemma ExcludedBlankSelectsNothing(env: Env, term: string, sign: char, row: Row)
    requires sign == '-' || sign == '!'
    requires term != "" && CleanString(term) == ""
    ensures TermHolds(env, term, row)
    ensures !TermHolds(env, [sign] + term, row)
  {
    hide ClauseOf, CleanString, Matches, Pattern;
    var negated := [sign] + term;
    CleansToNothing(negated);
    CleansToNothing(term);
    assert negated[0] in negated && !IsBlank(sign);
    assert negated[1..] == term && term[0] in term;
    UnkeyedClause(env, term, true);
    assert OccursAt(row.searchText, "", 0);
    PatternMeansContains("", row.searchText);
  }

  lemma ExclusionOf(sign: char, term: string)
    requires sign == '-' || sign == '!'
    ensures term != "" ==> IsExclusion([sign] + term)
    ensures ([sign] + term)[1..] == term && CleanString([sign] + term) != ""
  {
    CleansToNothing([sign] + term);
    assert ([sign] + term)[0] == sign && sign in [sign] + term && !IsBlank(sign);
  }

  /** Excluding a term that makes no condition makes none either if and only if the term is not blank: a
      key without words, or with a date that cannot be read, is ignored on both sides. */
  lemma ExclusionIsIgnoredExactlyWhen(env: Env, term: string, sign: char)
    requires sign == '-' || sign == '!'
    requires term != "" && !IsExclusion(term) && TermClause(env, term).None?
    ensures TermClause(env, [sign] + term).None? <==> CleanString(term) != ""
  {
    hide ClauseOf, CleanString;
    ExclusionOf(sign, term);
    if CleanString(term) == "" {
      CleansToNothing(term);
      assert term[0] in term;
      UnkeyedClause(env, term, true);
    } else {
      ExcludedClause(env, term);
    }
  }

  /** A search that can be made: the term "-," is an excluded blank, and no message is found. */
  lemma ExcludedCommaFindsNothing(env: Env, row: Row)
    ensures Args("-,", "", false) == ["-,"]
    ensures !Selects(Clauses(env, Args("-,", "", false)), row)
    ensures Selects(Clauses(env, Args(",", "", false)), row)
  {
    hide TermClause, CleanString, Selects;
    CommaArguments();
    SelectionIsConjunction(env, ["-,"], row);
    SelectionIsConjunction(env, [","], row);
    CommaIsBlank();
    ExcludedBlankSelectsNothing(env, ",", '-', row);
    assert ['-'] + "," == "-," && "-," in ["-,"];
  }

  lemma CommaIsBlank()
    ensures CleanString(",") == ""
  {
    CleansToNothing(",");
  }

  lemma CommaArguments()
    ensures Args(",", "", false) == [","]
    ensures Args("-,", "", false) == ["-,"]
  {
    assert "-,"[1..] == "," && ","[1..] == "";
    FlushPlain(",");
    FlushPlain("-,");
    assert "" + "," == "," && "" + "-" == "-" && "-" + "," == "-,";
  }

  lemma FlushPlain(s: string)
    requires s == "," || s == "-,"
    ensures Flush(s) == [s]
  {
    WithoutQuotesSame(s);
  }
}
