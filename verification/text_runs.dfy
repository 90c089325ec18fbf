/** The runs of a text: the longest pieces made of the characters to keep. */
module TextRuns {

  function Runs(keep: char -> bool, s: string): seq<string> {
    if s == "" then []
    else
      var rest := Runs(keep, s[1..]);
      if !keep(s[0]) then rest
      else if rest != [] && |s| > 1 && keep(s[1]) then [[s[0]] + rest[0]] + rest[1..]
      else [[s[0]]] + rest
  }

  function Spaced(words: seq<string>): string {
    if words == [] then "" else if |words| == 1 then words[0] else words[0] + " " + Spaced(words[1..])
  }

  /** The characters to keep, in order. */
  function Kept(keep: char -> bool, s: string): string {
    if s == "" then "" else (if keep(s[0]) then [s[0]] else "") + Kept(keep, s[1..])
  }

  ghost predicate AllKept(keep: char -> bool, s: string) {
    forall i :: 0 <= i < |s| ==> keep(s[i])
  }

  ghost predicate AreRuns(keep: char -> bool, words: seq<string>) {
    forall i :: 0 <= i < |words| ==> words[i] != "" && AllKept(keep, words[i])
  }

  lemma {:induction false} RunsAreRuns(keep: char -> bool, s: string)
    ensures AreRuns(keep, Runs(keep, s))
    ensures s != "" && keep(s[0]) ==> Runs(keep, s) != [] && Runs(keep, s)[0][0] == s[0]
  {
    if s != "" {
      RunsAreRuns(keep, s[1..]);
    }
  }

  lemma RunsNeedText(keep: char -> bool, s: string)
    ensures Runs(keep, s) != [] ==> s != ""
    ensures s != "" && keep(s[0]) ==> Runs(keep, s) != []
  {
  }

  lemma {:induction false} NoRunsExactlyWhen(keep: char -> bool, s: string)
    ensures Runs(keep, s) == [] <==> forall i :: 0 <= i < |s| ==> !keep(s[i])
  {
    if s != "" {
      NoRunsExactlyWhen(keep, s[1..]);
      assert forall i :: 0 < i < |s| ==> s[i] == s[1..][i - 1];
      assert (forall i :: 0 <= i < |s| ==> !keep(s[i])) ==> forall i :: 0 <= i < |s[1..]| ==> s[1..][i] == s[i + 1];
    }
  }

  /** A run in front of something else is the first run. */
  lemma {:induction false} RunInFront(keep: char -> bool, word: string, rest: string)
    requires word != "" && AllKept(keep, word) && (rest != "" ==> !keep(rest[0]))
    ensures Runs(keep, word + rest) == [word] + Runs(keep, rest)
  {
    var s := word + rest;
    assert s[1..] == word[1..] + rest;
    if |word| > 1 {
      RunInFront(keep, word[1..], rest);
      assert [word[0]] + word[1..] == word;
    } else {
      assert s[1..] == rest && word == [word[0]] && (rest != "" ==> s[1] == rest[0]);
    }
  }

  lemma SpacedGlued(c: char, rest: seq<string>)
    requires rest != []
    ensures Spaced([[c] + rest[0]] + rest[1..]) == [c] + Spaced(rest)
  {
    assert ([[c] + rest[0]] + rest[1..])[1..] == rest[1..];
  }

  lemma SpacedCons(word: string, rest: seq<string>)
    requires rest != []
    ensures Spaced([word] + rest) == word + " " + Spaced(rest)
  {
    assert ([word] + rest)[1..] == rest;
  }

  /** Joining runs by single spaces and taking the text apart again gives the same runs. */
  lemma {:induction false} RunsOfSpaced(keep: char -> bool, words: seq<string>)
    requires AreRuns(keep, words) && !keep(' ')
    ensures Runs(keep, Spaced(words)) == words
  {
    if words != [] {
      var rest := words[1..];
      assert AreRuns(keep, rest);
      RunsOfSpaced(keep, rest);
      assert words == [words[0]] + rest;
      if rest == [] {
        RunInFront(keep, words[0], "");
        assert words[0] + "" == words[0];
      } else {
        RunInFront(keep, words[0], " " + Spaced(rest));
        assert words[0] + " " + Spaced(rest) == words[0] + (" " + Spaced(rest));
        assert (" " + Spaced(rest))[1..] == Spaced(rest);
      }
    }
  }

  /** Nothing to keep is lost, repeated or moved. */
  lemma {:induction false} RunsKeep(keep: char -> bool, s: string)
    requires !keep(' ')
    ensures Kept(keep, Spaced(Runs(keep, s))) == Kept(keep, s)
  {
    if s != "" {
      var rest := Runs(keep, s[1..]);
      RunsKeep(keep, s[1..]);
      if keep(s[0]) {
        KeptBefore(keep, s[0], rest, |s| > 1 && keep(s[1]));
      }
    }
  }

  /** The text of runs, one character earlier. */
  lemma SpacedFrom(keep: char -> bool, s: string)
    requires s != ""
    ensures var rest := Runs(keep, s[1..]);
            && (Runs(keep, s) == [] <==> !keep(s[0]) && rest == [])
            && Spaced(Runs(keep, s))
               == if !keep(s[0]) then Spaced(rest)
                  else if rest == [] then [s[0]]
                  else if keep(s[1]) then [s[0]] + Spaced(rest)
                  else [s[0]] + " " + Spaced(rest)
  {
    var rest := Runs(keep, s[1..]);
    if keep(s[0]) && rest != [] {
      SpacedGlued(s[0], rest);
      SpacedCons([s[0]], rest);
    }
  }

  lemma {:induction false} SpacedIsNoLonger(keep: char -> bool, s: string)
    ensures |Spaced(Runs(keep, s))| + (if s != "" && !keep(s[0]) then 1 else 0) <= |s|
  {
    if s != "" {
      SpacedFrom(keep, s);
      RunsNeedText(keep, s[1..]);
      SpacedIsNoLonger(keep, s[1..]);
    }
  }

  lemma KeptBefore(keep: char -> bool, c: char, rest: seq<string>, glued: bool)
    requires keep(c) && !keep(' ')
    ensures var more := if rest != [] && glued then [[c] + rest[0]] + rest[1..] else [[c]] + rest;
            Kept(keep, Spaced(more)) == [c] + Kept(keep, Spaced(rest))
  {
    var tail := Spaced(rest);
    if rest != [] && glued {
      SpacedGlued(c, rest);
    } else if rest != [] {
      SpacedCons([c], rest);
      assert [c] + " " + tail == [c] + (" " + tail);
      assert (" " + tail)[1..] == tail;
      assert ([c] + (" " + tail))[1..] == " " + tail;
    } else {
      assert Spaced([[c]]) == [c];
    }
  }

  /** A text of runs with single spaces between them is its runs with single spaces between them. */
  ghost predicate IsSpaced(keep: char -> bool, s: string) {
    && (s != "" ==> keep(s[0]) && keep(s[|s| - 1]))
    && (forall i :: 0 < i < |s| && !keep(s[i]) ==> s[i] == ' ' && keep(s[i - 1]))
  }

  lemma {:induction false} SpacedAsItIs(keep: char -> bool, s: string)
    requires IsSpaced(keep, s)
    ensures Spaced(Runs(keep, s)) == s
  {
    if |s| > 1 {
      var t := s[1..];
      if keep(t[0]) {
        SpacedAsItIs(keep, t);
        RunsAreRuns(keep, t);
        SpacedGlued(s[0], Runs(keep, t));
        assert s == [s[0]] + t;
      } else {
        var u := t[1..];
        SpacedTail(keep, s);
        SpacedAsItIs(keep, u);
        RunsAreRuns(keep, u);
        SpacedCons([s[0]], Runs(keep, u));
        assert Runs(keep, t) == Runs(keep, u);
        assert s == [s[0]] + " " + u;
      }
    } else if s != "" {
      assert Runs(keep, s[1..]) == [] && s == [s[0]];
    }
  }

  lemma SpacedTail(keep: char -> bool, s: string)
    requires IsSpaced(keep, s) && |s| > 1 && !keep(s[1])
    ensures s[1] == ' ' && |s| > 2 && keep(s[2]) && IsSpaced(keep, s[1..][1..])
  {
    var u := s[1..][1..];
    assert |s| > 2;
    assert keep(s[2]);
    assert forall i :: 0 <= i < |u| ==> u[i] == s[i + 2];
    assert u[|u| - 1] == s[|s| - 1];
  }

  lemma {:induction false} SpacedIsSpaced(keep: char -> bool, words: seq<string>)
    requires AreRuns(keep, words) && !keep(' ')
    ensures IsSpaced(keep, Spaced(words)) && (words != [] ==> Spaced(words) != "")
  {
    if |words| > 1 {
      var rest := words[1..];
      assert AreRuns(keep, rest);
      SpacedIsSpaced(keep, rest);
      var w, t := words[0], Spaced(rest);
      var s := w + " " + t;
      assert AllKept(keep, w);
      forall i | 0 < i < |s| && !keep(s[i]) ensures s[i] == ' ' && keep(s[i - 1]) {
        if i > |w| + 1 {
          assert s[i] == t[i - |w| - 1] && s[i - 1] == t[i - |w| - 2];
        }
      }
    }
  }
}
