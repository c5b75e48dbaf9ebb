// src/classic/PlayerList.java: a persistent set of lower-cased player names
// (the ban, op and whitelist lists). The file on disk is the field `file`:
// None while it does not exist, otherwise its lines.

module ClassicPlayerList {
  import opened Wrappers
  import opened JavaText

  /** `String.compareTo` on the names: lexicographic by character, a proper
      prefix first. */
  predicate Leq(a: string, b: string)
  {
    a == [] || (b != [] && (a[0] < b[0] || (a[0] == b[0] && Leq(a[1..], b[1..]))))
  }

  lemma {:induction false} LeqTotal(a: string, b: string)
    ensures Leq(a, b) || Leq(b, a)
  {
    if a != [] && b != [] && a[0] == b[0] {
      LeqTotal(a[1..], b[1..]);
    }
  }

  predicate Sorted(lines: seq<string>)
  {
    forall i :: 0 < i < |lines| ==> Leq(lines[i - 1], lines[i])
  }

  /** The saved file for a set of names: every name once, in sorted order. */
  predicate Listing(lines: seq<string>, names: set<string>)
  {
    Sorted(lines) && multiset(lines) == multiset(names)
  }

  /** One step of `Collections.sort`, written as insertion into a sorted list. */
  function Insert(lines: seq<string>, x: string): (r: seq<string>)
    requires Sorted(lines)
    ensures Sorted(r)
    ensures multiset(r) == multiset(lines) + multiset{x}
    ensures r[0] == x || (lines != [] && r[0] == lines[0])
  {
    if lines == [] then [x]
    else if Leq(x, lines[0]) then [x] + lines
    else
      LeqTotal(x, lines[0]);
      assert lines == [lines[0]] + lines[1..];
      [lines[0]] + Insert(lines[1..], x)
  }

  /** What `loadFromFile` makes of one line. */
  function Key(line: string): string
  {
    Lower(Trim(line))
  }

  /** Whether `loadFromFile` keeps a line: not blank and not a '#' comment. */
  predicate Kept(line: string)
  {
    Key(line) != [] && !StartsWith(Key(line), "#")
  }

  /** The names `loadFromFile` collects from the lines read so far. */
  function Loaded(lines: seq<string>): (r: set<string>)
    ensures forall n :: n in r ==> Lower(n) == n
  {
    if lines == [] then {}
    else
      var last := lines[|lines| - 1];
      LowerIdempotent(Trim(last));
      Loaded(lines[..|lines| - 1]) + (if Kept(last) then {Key(last)} else {})
  }

  /** A kept line's name is among the loaded names. */
  lemma {:induction false} LoadedHas(lines: seq<string>, i: nat)
    requires i < |lines| && Kept(lines[i])
    ensures Key(lines[i]) in Loaded(lines)
  {
    if i < |lines| - 1 {
      var init := lines[..|lines| - 1];
      assert init[i] == lines[i];
      LoadedHas(init, i);
    }
  }

  /** Every loaded name comes from a kept line. */
  lemma {:induction false} LoadedFrom(lines: seq<string>, n: string) returns (i: nat)
    requires n in Loaded(lines)
    ensures i < |lines| && Kept(lines[i]) && Key(lines[i]) == n
  {
    var init := lines[..|lines| - 1];
    if n in Loaded(init) {
      i := LoadedFrom(init, n);
      assert init[i] == lines[i];
    } else {
      i := |lines| - 1;
    }
  }

  /** A name that comes back unchanged from a reload of a saved file: it
      survives the line filter, and it holds no line terminator, which
      `Files.write` would write out and `readAllLines` would split on. */
  predicate Reloadable(n: string)
  {
    n != [] && IsTrimmed(n) && Lower(n) == n && n[0] != '#' &&
    forall i :: 0 <= i < |n| ==> n[i] != '\n' && n[i] != '\r'
  }

  lemma KeyOfReloadable(n: string)
    requires Reloadable(n)
    ensures Kept(n) && Key(n) == n
  {
    TrimOfTrimmed(n);
  }

  /** Saving then loading gives back the set, as long as every name survives the
      line filter. */
  lemma ReloadAfterSave(lines: seq<string>, names: set<string>)
    requires Listing(lines, names)
    requires forall n :: n in names ==> Reloadable(n)
    ensures Loaded(lines) == names
  {
    forall n | n in names
      ensures n in Loaded(lines)
    {
      assert n in multiset(lines);
      var i :| 0 <= i < |lines| && lines[i] == n;
      KeyOfReloadable(n);
      LoadedHas(lines, i);
    }
    forall n | n in Loaded(lines)
      ensures n in names
    {
      var i := LoadedFrom(lines, n);
      assert lines[i] in multiset(lines);
      KeyOfReloadable(lines[i]);
    }
  }

  class PlayerList {
    var players: set<string>
    var file: Option<seq<string>>

    /** Stored names are lower-cased. */
    predicate Valid()
      reads this
    {
      forall n :: n in players ==> Lower(n) == n
    }

    /** The constructor loads whatever the file holds. */
    constructor(file: Option<seq<string>>)
      ensures Valid()
      ensures this.file == file
      ensures players == if file.Some? then Loaded(file.value) else {}
    {
      this.file := file;
      players := {};
      new;
      LoadFromFile();
    }

    /** `add`: true exactly when the lower-cased name was new; the file is
        rewritten only then. */
    method Add(name: string) returns (added: bool)
      requires Valid()
      modifies this
      ensures Valid()
      ensures added <==> Lower(name) !in old(players)
      ensures players == old(players) + {Lower(name)}
      ensures added ==> file.Some? && Listing(file.value, players)
      ensures !added ==> file == old(file)
    {
      added := Lower(name) !in players;
      LowerIdempotent(name);
      players := players + {Lower(name)};
      if added {
        SaveToFile();
      }
    }

    /** `remove`: true exactly when the lower-cased name was present; the file
        is rewritten only then. */
    method Remove(name: string) returns (removed: bool)
      requires Valid()
      modifies this
      ensures Valid()
      ensures removed <==> Lower(name) in old(players)
      ensures players == old(players) - {Lower(name)}
      ensures removed ==> file.Some? && Listing(file.value, players)
      ensures !removed ==> file == old(file)
    {
      removed := Lower(name) in players;
      players := players - {Lower(name)};
      if removed {
        SaveToFile();
      }
    }

    /** `contains`: membership of the lower-cased name, so any casing matches. */
    function Contains(name: string): (r: bool)
      reads this
      ensures r <==> Lower(name) in players
    {
      Lower(name) in players
    }

    /** `clear`: empties the set and always rewrites the file. */
    method Clear()
      modifies this
      ensures players == {} && file == Some([])
    {
      players := {};
      SaveToFile();
      assert |multiset(file.value)| == 0;
    }

    function Size(): (n: nat)
      reads this
      ensures n == 0 <==> players == {}
    {
      |players|
    }

    /** `loadFromFile` (and `reload`): a missing file changes nothing; otherwise
        the set is replaced by the kept lines, trimmed and lower-cased. */
    method LoadFromFile()
      modifies this
      ensures Valid() || file.None?
      ensures file == old(file)
      ensures file.None? ==> players == old(players)
      ensures file.Some? ==> players == Loaded(file.value)
    {
      if file.Some? {
        var lines := file.value;
        players := {};
        for i := 0 to |lines|
          invariant file == old(file)
          invariant players == Loaded(lines[..i])
        {
          var trimmed := Lower(Trim(lines[i]));
          if trimmed != [] && !StartsWith(trimmed, "#") {
            players := players + {trimmed};
          }
          assert lines[..i + 1][..i] == lines[..i];
        }
        assert lines[..|lines|] == lines;
      }
    }

    /** `saveToFile`: the names copied into a list and sorted. */
    method SaveToFile()
      modifies this
      ensures players == old(players)
      ensures file.Some? && Listing(file.value, players)
    {
      var lines: seq<string> := [];
      var rest := players;
      while rest != {}
        invariant rest <= players
        invariant Sorted(lines)
        invariant multiset(lines) == multiset(players - rest)
        decreases |rest|
      {
        var x :| x in rest;
        assert players - (rest - {x}) == (players - rest) + {x};
        lines := Insert(lines, x);
        rest := rest - {x};
      }
      assert players - rest == players;
      file := Some(lines);
    }
  }
}
