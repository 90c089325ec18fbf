/** The tag tables: a tag has a name that is unique whatever its case, and a row for every message that
    carries it. */
module Tags {
  import opened Basics
  import opened Like
  import opened ArgsParser
  import opened TextRuns

  type Id = string

  datatype Row = Row(id: Id, tagId: nat)

  // ---------------------------------------------------------------- clean names

  predicate IsTagChar(c: char) {
    'a' <= c <= 'z' || 'A' <= c <= 'Z' || '0' <= c <= '9'
    || c == '-' || c == ' ' || c == '_' || c == '.' || c == '@'
  }

  /** Characters that a tag cannot hold become spaces, and runs of spaces one space. */
  function Squeeze(s: string): string {
    if s == "" then ""
    else
      var c := if IsTagChar(s[0]) then s[0] else ' ';
      var rest := Squeeze(s[1..]);
      if c == ' ' && rest != "" && rest[0] == ' ' then rest else [c] + rest
  }

  function CleanTag(s: string): string {
    var t := TrimSpace(Squeeze(s));
    if |t| > 100 then t[..100] else t
  }

  predicate IsValidTag(s: string) {
    1 <= |s| <= 100 && forall i :: 0 <= i < |s| ==> IsTagChar(s[i])
  }

  lemma {:induction false} SqueezeIsTagText(s: string)
    ensures forall i :: 0 <= i < |Squeeze(s)| ==> IsTagChar(Squeeze(s)[i])
  {
    if s != "" {
      SqueezeIsTagText(s[1..]);
    }
  }

  lemma {:induction false} TrimLeftIsSuffix(s: string)
    ensures |TrimLeft(s)| <= |s| && TrimLeft(s) == s[|s| - |TrimLeft(s)|..]
  {
    if s != "" && IsSpace(s[0]) {
      TrimLeftIsSuffix(s[1..]);
    }
  }

  /** A cleaned name is empty or valid: the check of the name against the tag syntax only refuses empty
      names. */
  lemma CleanTagIsValid(s: string)
    ensures CleanTag(s) == "" || IsValidTag(CleanTag(s))
  {
    SqueezeIsTagText(s);
    TrimLeftIsSuffix(Squeeze(s));
    TrimRightKeeps(TrimLeft(Squeeze(s)));
  }

  predicate IsNameChar(c: char) {
    IsTagChar(c) && c != ' '
  }

  /** Squeezing leaves the runs of name characters, single spaces between them, and a space where the text began or
      ended with anything else. */
  lemma {:induction false} SqueezeShape(s: string)
    requires Runs(IsNameChar, s) != []
    ensures Squeeze(s) == Lead(s) + Spaced(Runs(IsNameChar, s)) + Trail(s)
  {
    SpaceIsNoName();
    hide Squeeze, IsNameChar, Runs, Spaced, Lead, Trail;
    RunsNeedText(IsNameChar, s);
    SpacedFrom(IsNameChar, s);
    var t := s[1..];
    if Runs(IsNameChar, t) == [] {
      SqueezeOfOther(t);
      NoRunsExactlyWhen(IsNameChar, t);
      SqueezeLetter(s);
    } else {
      SqueezeShape(t);
      RunsNeedText(IsNameChar, t);
      SpacedStarts(IsNameChar, t);
      SqueezeCombines(s, Spaced(Runs(IsNameChar, t)));
    }
  }

  lemma SqueezeLetter(s: string)
    requires s != "" && IsNameChar(s[0]) && (forall i :: 0 <= i < |s[1..]| ==> !IsNameChar(s[1..][i]))
    requires Squeeze(s[1..]) == if s[1..] == "" then "" else " "
    ensures Squeeze(s) == Lead(s) + [s[0]] + Trail(s)
  {
    hide IsNameChar;
    SqueezeStep(s);
    assert |s| > 1 ==> s[|s| - 1] == s[1..][|s| - 2];
  }

  lemma SqueezeCombines(s: string, x: string)
    requires |s| > 1 && x != "" && x[0] != ' '
    requires Squeeze(s[1..]) == Lead(s[1..]) + x + Trail(s[1..])
    ensures Squeeze(s)
            == Lead(s)
               + (if !IsNameChar(s[0]) then x else if IsNameChar(s[1]) then [s[0]] + x else [s[0]] + " " + x)
               + Trail(s)
  {
    hide IsNameChar, Squeeze, Trail, Lead;
    TrailOfTail(s);
    SqueezeStep(s);
    LeadIs(s);
    LeadIs(s[1..]);
    Combined(s[0], Squeeze(s[1..]), Lead(s[1..]), x, Trail(s));
  }

  lemma LeadIs(s: string)
    requires s != ""
    ensures Lead(s) == if IsNameChar(s[0]) then "" else " "
  {
  }

  lemma Combined(c: char, rest: string, lead: string, x: string, trail: string)
    requires (lead == "" || lead == " ") && x != "" && x[0] != ' ' && rest == lead + x + trail
    ensures rest != "" && (rest[0] == ' ' <==> lead == " ")
    ensures "" + (if lead == "" then [c] + x else [c] + " " + x) + trail == [c] + rest
    ensures " " + x + trail == if lead == " " then rest else " " + rest
  {
    var y := x + trail;
    if lead == "" {
      assert rest == y;
      assert "" + ([c] + x) + trail == [c] + y;
      assert " " + x + trail == " " + y;
    } else {
      assert rest == " " + y;
      assert "" + ([c] + " " + x) + trail == [c] + (" " + y);
    }
  }

  lemma TrailOfTail(s: string)
    requires |s| > 1
    ensures Trail(s[1..]) == Trail(s)
  {
    assert s[|s| - 1] == s[1..][|s| - 2];
  }

  lemma SqueezeStep(s: string)
    requires s != ""
    ensures var rest := Squeeze(s[1..]);
            Squeeze(s) == if IsNameChar(s[0]) then [s[0]] + rest
                          else if rest != "" && rest[0] == ' ' then rest
                          else " " + rest
  {
  }

  function Lead(s: string): string {
    if s != "" && !IsNameChar(s[0]) then " " else ""
  }

  function Trail(s: string): string {
    if s != "" && !IsNameChar(s[|s| - 1]) then " " else ""
  }

  lemma SpacedStarts(keep: char -> bool, s: string)
    requires Runs(keep, s) != [] && !keep(' ')
    ensures var x := Spaced(Runs(keep, s)); x != "" && keep(x[0]) && keep(x[|x| - 1])
  {
    RunsAreRuns(keep, s);
    SpacedIsSpaced(keep, Runs(keep, s));
  }

  lemma {:induction false} SqueezeOfOther(s: string)
    requires Runs(IsNameChar, s) == []
    ensures Squeeze(s) == if s == "" then "" else " "
  {
    if s != "" {
      RunsNeedText(IsNameChar, s);
      SpacedFrom(IsNameChar, s);
      SqueezeOfOther(s[1..]);
    }
  }

  lemma TrimPadded(lead: string, x: string, trail: string)
    requires lead in {"", " "} && trail in {"", " "}
    requires x != "" && !IsSpace(x[0]) && !IsSpace(x[|x| - 1])
    ensures TrimSpace(lead + x + trail) == x
  {
    var s := lead + x + trail;
    var t := x + trail;
    assert TrimLeft(t) == t;
    assert lead == " " ==> s[1..] == t;
    assert lead == "" ==> s == t;
    assert TrimLeft(s) == t;
    assert trail == " " ==> t[..|t| - 1] == x;
    assert TrimRight(x) == x;
  }

  function Front(s: string, n: nat): string {
    if |s| > n then s[..n] else s
  }

  /** The cleaned name is the start of the text's runs of name characters, in order and with single spaces between
      them. */
  lemma CleanTagIs(s: string)
    ensures CleanTag(s) == Front(Spaced(Runs(IsNameChar, s)), 100)
  {
    hide IsNameChar, Squeeze, Runs, Spaced;
    if Runs(IsNameChar, s) == [] {
      SqueezeOfOther(s);
      NoneIsNothing(IsNameChar);
    } else {
      SpaceIsNoName();
      SqueezeShape(s);
      SpacedStarts(IsNameChar, s);
      var x := Spaced(Runs(IsNameChar, s));
      NameCharIsNoSpace(x[0]);
      NameCharIsNoSpace(x[|x| - 1]);
      TrimPadded(Lead(s), x, Trail(s));
    }
  }

  lemma NoneIsNothing(keep: char -> bool)
    ensures Spaced([]) == "" && TrimSpace(" ") == TrimSpace("") == ""
  {
  }

  lemma NameCharIsNoSpace(c: char)
    requires IsNameChar(c)
    ensures !IsSpace(c)
  {
  }

  /** A name is cleaned away exactly if it has no character that a name can hold. */
  lemma CleanTagIsEmptyExactlyWhen(s: string)
    ensures CleanTag(s) == "" <==> forall i :: 0 <= i < |s| ==> !IsNameChar(s[i])
  {
    hide CleanTag, IsNameChar;
    SpaceIsNoName();
    CleanTagIs(s);
    NoRunsExactlyWhen(IsNameChar, s);
    if Runs(IsNameChar, s) != [] {
      SpacedStarts(IsNameChar, s);
    }
  }

  lemma SpaceIsNoName()
    ensures !IsNameChar(' ')
  {
  }

  /** A valid tag without outer spaces and without two spaces in a row. */
  predicate IsTidy(s: string) {
    && IsValidTag(s) && s[0] != ' ' && s[|s| - 1] != ' '
    && forall i :: 0 < i < |s| && s[i] == ' ' ==> s[i - 1] != ' '
  }

  /** A name is its own cleaned name exactly if it is empty or tidy. (A name that is cut after a space is not.) */
  lemma CleanTagKeepsExactlyWhen(s: string)
    ensures CleanTag(s) == s <==> s == "" || IsTidy(s)
  {
    SpaceIsNoName();
    hide CleanTag, Runs, Spaced;
    CleanTagIs(s);
    CleanTagIsValid(s);
    SpacedIsNoLonger(IsNameChar, s);
    if s == "" || IsTidy(s) {
      SpacedAsItIs(IsNameChar, s);
    }
    RunsAreRuns(IsNameChar, s);
    SpacedIsSpaced(IsNameChar, Runs(IsNameChar, s));
  }

  // ---------------------------------------------------------------- rows

  /** The rows that remain when some are deleted. */
  function Keep(rows: seq<Row>, gone: set<Row>): (r: seq<Row>)
    ensures forall x :: x in r ==> x in rows && x !in gone
  {
    if rows == [] then []
    else
      var rest := Keep(rows[1..], gone);
      if rows[0] in gone then rest else [rows[0]] + rest
  }

  lemma {:induction false} KeepKeeps(rows: seq<Row>, gone: set<Row>, x: Row)
    requires x in rows && x !in gone
    ensures x in Keep(rows, gone)
  {
    if rows[0] != x {
      KeepKeeps(rows[1..], gone, x);
    }
  }

  lemma {:induction false} KeepDistinct(rows: seq<Row>, gone: set<Row>)
    requires Distinct(rows)
    ensures Distinct(Keep(rows, gone))
  {
    if rows != [] {
      assert forall i, j :: 0 <= i < j < |rows[1..]| ==> rows[1..][i] == rows[i + 1] && rows[1..][j] == rows[j + 1];
      KeepDistinct(rows[1..], gone);
      assert rows[0] !in rows[1..];
      assert rows[0] !in Keep(rows[1..], gone);
    }
  }

  function LowerAll(names: seq<string>): set<string> {
    set n | n in names :: Lower(n)
  }

  lemma LowerAllAppend(names: seq<string>, name: string)
    ensures LowerAll(names + [name]) == LowerAll(names) + {Lower(name)}
  {
    var more := names + [name];
    assert more[|names|] == name && forall n :: n in names ==> n in more;
  }

  /** The names to apply, cleaned and in lower case. */
  function Wanted(names: seq<string>): set<string> {
    set n | n in names && CleanTag(n) != "" :: Lower(CleanTag(n))
  }

  lemma WantedAppend(names: seq<string>, name: string)
    ensures Wanted(names + [name]) == Wanted(names) + (if CleanTag(name) == "" then {} else {Lower(CleanTag(name))})
  {
    hide CleanTag;
    var more := names + [name];
    assert more[|names|] == name && forall n :: n in names ==> n in more;
  }

  /** Tidy names are wanted as they are. */
  lemma TidyIsWanted(names: seq<string>)
    ensures (forall n :: n in names ==> IsTidy(n)) ==> Wanted(names) == LowerAll(names)
  {
    hide CleanTag;
    if forall n :: n in names ==> IsTidy(n) {
      forall n | n in names ensures CleanTag(n) == n != "" {
        CleanTagKeepsExactlyWhen(n);
      }
    }
  }

  lemma LowerNone(names: seq<string>)
    ensures names == [] ==> LowerAll(names) == {}
  {
  }

  /** The names that are not in the set. */
  method Dropped(currentTags: seq<string>, applySet: set<string>) returns (toDelete: seq<string>)
    ensures LowerAll(toDelete) == LowerAll(currentTags) - applySet
  {
    toDelete := [];
    for i := 0 to |currentTags|
      invariant LowerAll(toDelete) == LowerAll(currentTags[..i]) - applySet
    {
      LowerAllAppend(currentTags[..i], currentTags[i]);
      assert currentTags[..i + 1] == currentTags[..i] + [currentTags[i]];
      if Lower(currentTags[i]) !in applySet {
        LowerAllAppend(toDelete, currentTags[i]);
        toDelete := toDelete + [currentTags[i]];
      }
    }
    assert currentTags[..|currentTags|] == currentTags;
  }

  /** Cleans the names and drops those that are empty or that differ from an earlier one only by case. */
  method CleanTags(names: seq<string>) returns (applyTags: seq<string>)
    ensures LowerAll(applyTags) == Wanted(names)
    ensures forall i, j :: 0 <= i < j < |applyTags| ==> Lower(applyTags[i]) != Lower(applyTags[j])
  {
    hide CleanTag;
    var seen: set<string> := {};
    applyTags := [];
    for i := 0 to |names|
      invariant LowerAll(applyTags) == seen == Wanted(names[..i])
      invariant forall j, k :: 0 <= j < k < |applyTags| ==> Lower(applyTags[j]) != Lower(applyTags[k])
    {
      WantedAppend(names[..i], names[i]);
      assert names[..i + 1] == names[..i] + [names[i]];
      var t := CleanTag(names[i]);
      CleanTagIsValid(names[i]);
      if t == "" || !IsValidTag(t) {
        continue;
      }
      var lc := Lower(t);
      if lc in seen {
        continue;
      }
      seen := seen + {lc};
      LowerAllAppend(applyTags, t);
      assert forall j :: 0 <= j < |applyTags| ==> Lower(applyTags[j]) in LowerAll(applyTags);
      applyTags := applyTags + [t];
    }
    assert names[..|names|] == names;
  }

  type TagNames = map<nat, string>

  ghost predicate PointAt(rows: seq<Row>, tags: TagNames) {
    forall r :: r in rows ==> r.tagId in tags
  }

  /** The names of a message's tags, in lower case. */
  ghost function NamesIn(tags: TagNames, rows: seq<Row>, id: Id): set<string>
    requires PointAt(rows, tags)
  {
    set r | r in rows && r.id == id :: Lower(tags[r.tagId])
  }

  /** There is a tag by that name, whatever its case. */
  ghost predicate HasName(tags: TagNames, name: string) {
    exists t :: t in tags && Lower(tags[t]) == Lower(name)
  }

  lemma NamesOfMoreTags(tags: TagNames, more: TagNames, rows: seq<Row>, id: Id)
    requires PointAt(rows, tags) && tags.Keys <= more.Keys && forall t :: t in tags ==> more[t] == tags[t]
    ensures PointAt(rows, more) && NamesIn(more, rows, id) == NamesIn(tags, rows, id)
  {
  }

  lemma NamesOfMoreRows(tags: TagNames, rows: seq<Row>, r: Row, id: Id)
    requires PointAt(rows, tags) && r.tagId in tags
    ensures PointAt(rows + [r], tags)
    ensures NamesIn(tags, rows + [r], id)
            == NamesIn(tags, rows, id) + (if r.id == id then {Lower(tags[r.tagId])} else {})
  {
    var more := rows + [r];
    forall n | n in NamesIn(tags, rows, id) ensures n in NamesIn(tags, more, id) {
      var x :| x in rows && x.id == id && Lower(tags[x.tagId]) == n;
      assert x in more;
    }
    assert r in more;
  }

  lemma NamesOfListed(tags: TagNames, rows: seq<Row>, r: Row)
    requires PointAt(rows, tags) && r in rows
    ensures Lower(tags[r.tagId]) in NamesIn(tags, rows, r.id)
  {
  }

  /** The rows of some messages, of a tag, or of a message with one of some names. */
  ghost predicate HasRow(rows: seq<Row>, gone: set<Row>, id: Id, n: string, tags: TagNames)
    requires PointAt(rows, tags)
  {
    exists r :: r in rows && r !in gone && r.id == id && Lower(tags[r.tagId]) == n
  }

  /** The names that remain when rows are deleted, and with them the tags that lose their last row. */
  lemma NamesAfterKeep(tags: TagNames, rows: seq<Row>, gone: set<Row>, tags': TagNames, id: Id, n: string)
    requires PointAt(rows, tags) && PointAt(Keep(rows, gone), tags')
    requires forall t :: t in tags' ==> t in tags && tags'[t] == tags[t]
    ensures n in NamesIn(tags', Keep(rows, gone), id) <==> HasRow(rows, gone, id, n, tags)
  {
    if HasRow(rows, gone, id, n, tags) {
      var r :| r in rows && r !in gone && r.id == id && Lower(tags[r.tagId]) == n;
      KeepKeeps(rows, gone, r);
    }
  }

  // ---------------------------------------------------------------- the tables

  class TagStore {
    var tags: map<nat, string>
    var rows: seq<Row>
    var next: nat

    /** Names are unique up to case. */
    ghost predicate UniqueNames()
      reads this
    {
      forall t, u :: t in tags && u in tags && Lower(tags[t]) == Lower(tags[u]) ==> t == u
    }

    /** Rows point at tags, and none is there twice. */
    ghost predicate Sound()
      reads this
    {
      && UniqueNames()
      && (forall t :: t in tags ==> t < next)
      && PointAt(rows, tags)
      && Distinct(rows)
    }

    ghost predicate IsUsed(t: nat)
      reads this
    {
      exists r :: r in rows && r.tagId == t
    }

    ghost predicate Valid()
      reads this
    {
      Sound() && forall t :: t in tags ==> IsUsed(t)
    }

    ghost function NamesOf(id: Id): set<string>
      requires Sound()
      reads this
    {
      NamesIn(tags, rows, id)
    }

    constructor ()
      ensures Valid() && rows == [] && tags == map[]
    {
      tags, rows, next := map[], [], 0;
    }

    /** SELECT ID FROM tags WHERE Name = ? */
    method FindTag(name: string) returns (r: Option<nat>)
      ensures r.Some? ==> r.value in tags && Lower(tags[r.value]) == Lower(name)
      ensures r.None? ==> forall t :: t in tags ==> Lower(tags[t]) != Lower(name)
    {
      if t :| t in tags && Lower(tags[t]) == Lower(name) {
        r := Some(t);
      } else {
        r := None;
      }
    }

    /** INSERT OR IGNORE INTO tags, and the id of the tag by that name. */
    method EnsureTag(name: string) returns (tagID: nat)
      requires Sound()
      modifies this`tags, this`next
      ensures Sound()
      ensures tagID in tags && Lower(tags[tagID]) == Lower(name)
      ensures tagID in old(tags) || (!HasName(old(tags), name) && tags[tagID] == name)
      ensures old(tags.Keys) <= tags.Keys <= old(tags.Keys) + {tagID}
      ensures forall t :: t in old(tags) ==> tags[t] == old(tags)[t]
      ensures forall id :: NamesOf(id) == old(NamesOf(id))
    {
      var found := FindTag(name);
      if found.Some? {
        return found.value;
      }
      tagID := next;
      tags := tags[next := name];
      next := next + 1;
      forall id ensures NamesOf(id) == old(NamesOf(id)) {
        NamesOfMoreTags(old(tags), tags, rows, id);
      }
    }

    method AttachTag(id: Id, tagID: nat)
      requires Sound() && tagID in tags
      modifies this`rows
      ensures Sound()
      ensures forall other :: NamesOf(other) == old(NamesOf(other)) + (if other == id then {Lower(tags[tagID])} else {})
      ensures forall r :: r in rows <==> r in old(rows) || r == Row(id, tagID)
    {
      ghost var before := rows;
      if Row(id, tagID) in rows {
        NamesOfListed(tags, rows, Row(id, tagID));
        return;
      }
      rows := rows + [Row(id, tagID)];
      forall other ensures NamesOf(other) == old(NamesOf(other)) + (if other == id then {Lower(tags[tagID])} else {}) {
        NamesOfMoreRows(tags, before, Row(id, tagID), other);
      }
    }

    /** Adds the tag to the tags if no name like it is there, and to the message if it does not have it. */
    method AddMessageTag(id: Id, name: string) returns (foundName: string)
      requires Valid()
      modifies this
      ensures Valid()
      ensures Lower(foundName) == Lower(name)
      ensures forall t :: t in old(tags) && Lower(old(tags)[t]) == Lower(name) ==> foundName == old(tags)[t]
      ensures !HasName(old(tags), name) ==> foundName == name
      ensures NamesOf(id) == old(NamesOf(id)) + {Lower(name)}
      ensures forall other :: other != id ==> NamesOf(other) == old(NamesOf(other))
      ensures forall r :: r in rows ==> r in old(rows) || r.id == id
    {
      hide NamesIn, Distinct;
      var tagID := EnsureTag(name);
      foundName := tags[tagID];
      AttachTag(id, tagID);
      assert Row(id, tagID) in rows;
    }

    /** Deletes the tags that no message carries. */
    method PruneUnusedTags()
      requires Sound()
      modifies this`tags
      ensures Valid()
      ensures tags == map t | t in old(tags) && old(IsUsed(t)) :: old(tags)[t]
      ensures forall id :: NamesOf(id) == old(NamesOf(id))
    {
      hide NamesIn, Lower;
      var todo := tags.Keys;
      while todo != {}
        invariant todo <= old(tags).Keys
        invariant tags == map t | t in old(tags) && (t in todo || old(IsUsed(t))) :: old(tags)[t]
        decreases todo
      {
        var t :| t in todo;
        todo := todo - {t};
        if forall r :: r in rows ==> r.tagId != t {
          tags := tags - {t};
        }
      }
      forall id ensures NamesOf(id) == old(NamesOf(id)) {
        NamesOfMoreTags(tags, old(tags), rows, id);
      }
    }

    /** DELETE FROM message_tags for some rows, and then the pruning. */
    method DeleteRows(gone: set<Row>)
      requires Sound()
      modifies this`rows, this`tags
      ensures Valid() && rows == Keep(old(rows), gone)
      ensures forall id, n :: n in NamesOf(id) <==> HasRow(old(rows), gone, id, n, old(tags))
    {
      KeepDistinct(rows, gone);
      ghost var before := rows;
      rows := Keep(rows, gone);
      PruneUnusedTags();
      forall id, n ensures n in NamesOf(id) <==> HasRow(before, gone, id, n, old(tags)) {
        NamesAfterKeep(old(tags), before, gone, tags, id, n);
      }
    }

    /** Takes some names, whatever their case, off a message. */
    method DeleteMessageTags(id: Id, names: seq<string>)
      requires Sound()
      modifies this`rows, this`tags
      ensures Valid()
      ensures NamesOf(id) == old(NamesOf(id)) - LowerAll(names)
      ensures forall other :: other != id ==> NamesOf(other) == old(NamesOf(other))
      ensures forall r :: r in rows ==> r in old(rows)
    {
      var gone := set r | r in rows && r.id == id && Lower(tags[r.tagId]) in LowerAll(names);
      DeleteRows(gone);
    }

    /** SELECT Name FROM tags, for one message. */
    method GetMessageTags(id: Id) returns (names: seq<string>)
      requires Sound()
      ensures LowerAll(names) == NamesOf(id)
    {
      names := [];
      for i := 0 to |rows|
        invariant forall n ::
                    n in LowerAll(names)
                    <==> exists j :: 0 <= j < i && rows[j].id == id && Lower(tags[rows[j].tagId]) == n
      {
        if rows[i].id == id {
          names := names + [tags[rows[i].tagId]];
          LowerAllAppend(names[..|names| - 1], tags[rows[i].tagId]);
          assert names[..|names| - 1] + [tags[rows[i].tagId]] == names;
        }
      }
    }

    /** Makes the tags of a message exactly the cleaned names, each once whatever its case. */
    method SetMessageTags(id: Id, names: seq<string>) returns (added: seq<string>)
      requires Valid()
      modifies this
      ensures Valid()
      ensures NamesOf(id) == Wanted(names)
      ensures (forall n :: n in names ==> IsTidy(n)) ==> NamesOf(id) == LowerAll(names)
      ensures forall other :: other != id ==> NamesOf(other) == old(NamesOf(other))
      ensures forall r :: r in rows ==> r in old(rows) || r.id == id
      ensures LowerAll(added) == Wanted(names) - old(NamesOf(id))
    {
      hide Wanted, LowerAll, NamesIn, PointAt, Distinct, IsTidy;
      TidyIsWanted(names);
      ghost var had := NamesOf(id);
      var applyTags := CleanTags(names);
      var currentTags := GetMessageTags(id);
      var currentSet := LowerAll(currentTags);
      var applySet := LowerAll(applyTags);

      added := AddMissing(id, applyTags, currentSet);

      var toDelete := Dropped(currentTags, applySet);
      assert had + applySet - (had - applySet) == applySet;
      if |toDelete| > 0 {
        DeleteMessageTags(id, toDelete);
      } else {
        assert LowerAll(toDelete) == {} by { LowerNone(toDelete); }
        assert had <= applySet;
      }
    }

    method AddMissing(id: Id, applyTags: seq<string>, currentSet: set<string>) returns (added: seq<string>)
      requires Valid() && currentSet == NamesOf(id)
      modifies this
      ensures Valid()
      ensures NamesOf(id) == old(NamesOf(id)) + LowerAll(applyTags)
      ensures forall other :: other != id ==> NamesOf(other) == old(NamesOf(other))
      ensures forall r :: r in rows ==> r in old(rows) || r.id == id
      ensures LowerAll(added) == LowerAll(applyTags) - currentSet
    {
      added := [];
      for i := 0 to |applyTags|
        invariant Valid()
        invariant NamesOf(id) == old(NamesOf(id)) + LowerAll(applyTags[..i])
        invariant forall other :: other != id ==> NamesOf(other) == old(NamesOf(other))
        invariant forall r :: r in rows ==> r in old(rows) || r.id == id
        invariant LowerAll(added) == LowerAll(applyTags[..i]) - currentSet
      {
        LowerAllAppend(applyTags[..i], applyTags[i]);
        assert applyTags[..i + 1] == applyTags[..i] + [applyTags[i]];
        if Lower(applyTags[i]) !in currentSet {
          var name := AddMessageTag(id, applyTags[i]);
          LowerAllAppend(added, name);
          added := added + [name];
        }
      }
      assert applyTags[..|applyTags|] == applyTags;
    }

    /** Takes every tag off some messages; the tags themselves are left for the pruning. */
    method DropMessageRows(ids: set<Id>)
      requires Sound()
      modifies this`rows
      ensures Sound()
      ensures forall id :: NamesOf(id) == if id in ids then {} else old(NamesOf(id))
      ensures forall r :: r in rows ==> r in old(rows) && r.id !in ids
    {
      var gone := set r | r in rows && r.id in ids;
      KeepDistinct(rows, gone);
      ghost var before := rows;
      rows := Keep(rows, gone);
      forall id, n ensures n in NamesOf(id) <==> id !in ids && n in NamesIn(tags, before, id) {
        NamesAfterKeep(tags, before, gone, tags, id, n);
      }
    }

    method Clear()
      modifies this`rows, this`tags
      ensures Valid() && rows == [] && tags == map[]
    {
      rows, tags := [], map[];
    }

    method DropTag(t: nat)
      requires Valid() && t in tags
      modifies this`rows, this`tags
      ensures Valid()
      ensures forall id, n ::
                n in NamesOf(id) <==> HasRow(old(rows), (set r | r in old(rows) && r.tagId == t), id, n, old(tags))
      ensures forall r :: r in rows ==> r in old(rows)
    {
      var gone := set r | r in rows && r.tagId == t;
      KeepDistinct(rows, gone);
      ghost var before := rows;
      rows := Keep(rows, gone);
      tags := tags - {t};
      forall u | u in tags ensures IsUsed(u) {
        var r :| r in before && r.tagId == u;
        KeepKeeps(before, gone, r);
      }
      forall id, n ensures n in NamesOf(id) <==> HasRow(before, gone, id, n, old(tags)) {
        NamesAfterKeep(old(tags), before, gone, tags, id, n);
      }
    }

    /** Deletes a tag and every reference to it. */
    method DeleteTag(tag: string) returns (found: bool)
      requires Valid()
      modifies this`rows, this`tags
      ensures Valid()
      ensures found <==> exists t :: t in old(tags) && Lower(old(tags)[t]) == Lower(tag)
      ensures forall id :: NamesOf(id) == old(NamesOf(id)) - {Lower(tag)}
      ensures forall r :: r in rows ==> r in old(rows)
    {
      var t := FindTag(tag);
      if t.None? {
        return false;
      }
      DropTag(t.value);
      return true;
    }

    /** Gives a tag another name, unless another tag has it. */
    method RenameTag(from: string, toName: string) returns (r: Renaming)
      requires Valid()
      modifies this`tags
      ensures Valid()
      ensures r.InvalidName? <==> CleanTag(toName) == ""
      ensures r.InvalidName? <==> forall i :: 0 <= i < |toName| ==> !IsNameChar(toName[i])
      ensures r.Ignored? <==> CleanTag(toName) != "" && from == CleanTag(toName)
      ensures r.NotFound? <==> CleanTag(toName) != "" && from != CleanTag(toName) && !HasName(old(tags), from)
      ensures r.Exists? <==> CleanTag(toName) != "" && from != CleanTag(toName) && HasName(old(tags), from)
                             && HasName(old(tags), CleanTag(toName)) && Lower(CleanTag(toName)) != Lower(from)
      ensures !r.Renamed? ==> tags == old(tags)
      ensures r.Renamed? ==>
                forall id :: NamesOf(id) == Replaced(old(NamesOf(id)), Lower(from), Lower(CleanTag(toName)))
    {
      hide CleanTag, NamesIn, TagStore.IsUsed, Distinct, Lower;
      CleanTagIsEmptyExactlyWhen(toName);
      var to := CleanTag(toName);
      if to == "" {
        return InvalidName;
      }
      if from == to {
        return Ignored;
      }
      var t := FindTag(from);
      if t.None? {
        return NotFound;
      }
      if u :| u in tags && u != t.value && Lower(tags[u]) == Lower(to) {
        return Exists;
      }
      SetName(t.value, to);
      return Renamed;
    }

    /** UPDATE tags SET Name = ? */
    method SetName(t: nat, to: string)
      requires Valid() && t in tags && forall u :: u in tags && u != t ==> Lower(tags[u]) != Lower(to)
      modifies this`tags
      ensures Valid() && tags == old(tags)[t := to]
      ensures forall id :: NamesOf(id) == Replaced(old(NamesOf(id)), Lower(old(tags)[t]), Lower(to))
    {
      forall id ensures PointAt(rows, tags[t := to])
                        && NamesIn(tags[t := to], rows, id)
                           == Replaced(NamesIn(tags, rows, id), Lower(tags[t]), Lower(to)) {
        NamesAfterRename(tags, rows, t, to, id);
      }
      hide NamesIn;
      tags := tags[t := to];
    }
  }

  datatype Renaming = Renamed | Ignored | InvalidName | NotFound | Exists

  function Replaced(names: set<string>, from: string, to: string): set<string> {
    if from in names then names - {from} + {to} else names
  }

  lemma NamesAfterRename(tags: TagNames, rows: seq<Row>, t: nat, to: string, id: Id)
    requires PointAt(rows, tags) && t in tags
    requires forall u, v :: u in tags && v in tags && Lower(tags[u]) == Lower(tags[v]) ==> u == v
    ensures PointAt(rows, tags[t := to])
    ensures NamesIn(tags[t := to], rows, id) == Replaced(NamesIn(tags, rows, id), Lower(tags[t]), Lower(to))
  {
    var tags' := tags[t := to];
    var names, names' := NamesIn(tags, rows, id), NamesIn(tags', rows, id);
    if Row(id, t) in rows {
      assert Lower(tags[t]) in names && Lower(to) in names';
      forall n ensures n in names' <==> n in names - {Lower(tags[t])} + {Lower(to)} {
        if n in names && n != Lower(tags[t]) {
          var r :| r in rows && r.id == id && Lower(tags[r.tagId]) == n;
          assert Lower(tags'[r.tagId]) == n;
        }
      }
    } else {
      assert forall r :: r in rows && r.id == id ==> r.tagId != t && tags'[r.tagId] == tags[r.tagId];
      assert names' == names;
      assert forall r :: r in rows && r.id == id ==> Lower(tags[r.tagId]) != Lower(tags[t]);
    }
  }
}
