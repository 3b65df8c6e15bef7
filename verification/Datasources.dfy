/** The administered connection: the form it is stored in, and the file it is stored in, which
    a save replaces whole or not at all. */
module Datasources {
  import opened Options
  import opened Sentences
  import Numbers

  // ----- the connection -----

  datatype Datasource = Datasource(
    dialect: string, name: string, host: string, port: string, user: string, password: string, sslMode: string)

  function Lower(s: string): string {
    if s == "" then "" else [if 'A' <= s[0] <= 'Z' then s[0] - 'A' + 'a' else s[0]] + Lower(s[1..])
  }

  /** White space as Unicode has it. */
  predicate Space(c: char) {
    var r := c as int;
    9 <= r <= 13 || r == 32 || r == 0x85 || r == 0xA0 || r == 0x1680 || 0x2000 <= r <= 0x200A || r == 0x2028
      || r == 0x2029
    || r == 0x202F || r == 0x205F || r == 0x3000
  }

  predicate Blank(s: string) {
    forall i :: 0 <= i < |s| ==> Space(s[i])
  }

  /** A port is left out or a number of 64 bits. */
  predicate PortFits(port: string) {
    port == "" || (IsNumber(port) && -0x8000_0000_0000_0000 <= NumberOf(port) < 0x8000_0000_0000_0000)
  }

  predicate Usable(d: Datasource) {
    if Lower(d.dialect) == "sqlite" then !Blank(d.name)
    else (Lower(d.dialect) == "postgres" || Lower(d.dialect) == "mysql")
         && !Blank(d.host) && !Blank(d.name) && !Blank(d.user) && PortFits(d.port)
  }

  /** The form of a connection that is written, and so what the next start reads: of a SQLite
      file only the dialect and the name. */
  function AsStored(d: Datasource): Datasource {
    if Lower(d.dialect) == "sqlite" then d.(host := "", port := "", user := "", password := "", sslMode := "") else d
  }

  /** A word of small letters, in small letters or capitals. */
  ghost predicate Spells(s: string, word: string) {
    |s| == |word| && forall i :: 0 <= i < |s| ==> s[i] == word[i] || s[i] as int + 32 == word[i] as int
  }

  predicate SmallLetters(word: string) {
    forall i :: 0 <= i < |word| ==> 'a' <= word[i] <= 'z'
  }

  lemma {:induction false} LowerAt(s: string)
    ensures |Lower(s)| == |s|
    ensures forall i :: 0 <= i < |s| ==> Lower(s)[i] == if 'A' <= s[i] <= 'Z' then s[i] - 'A' + 'a' else s[i]
  {
    if s == "" {
    } else {
      LowerAt(s[1..]);
      assert Lower(s)[1..] == Lower(s[1..]);
    }
  }

  lemma LowerSpells(s: string, word: string)
    requires SmallLetters(word)
    ensures Lower(s) == word <==> Spells(s, word)
  {
    LowerAt(s);
    hide Lower;
  }

  ghost predicate HasText(s: string) {
    exists i :: 0 <= i < |s| && !Space(s[i])
  }

  /** The ports are none, and the numbers of 64 bits, perhaps with a sign and with zeros before
      them. */
  lemma PortsExactly(port: string)
    ensures PortFits(port) <==>
            port == "" || exists sign, zeros: nat, k: nat ::
                            PortOf(port, sign, zeros, k) && k < 0x8000_0000_0000_0000 + if sign == "-" then 1 else 0
  {
    hide Numbers.Decimal, Numbers.Zeros, Value, AllDigits;
    if port != "" && PortFits(port) {
      var digits := if Signed(port) then port[1..] else port;
      var sign := if Signed(port) then port[..1] else "";
      var zeros := Numbers.WithZeros(digits);
      assert port == sign + digits;
      assert PortOf(port, sign, zeros, Value(digits));
    }
    forall sign, zeros: nat, k: nat
      | PortOf(port, sign, zeros, k) && k < 0x8000_0000_0000_0000 + if sign == "-" then 1 else 0
      ensures PortFits(port)
    {
      Numbers.NumberIsRead(sign, zeros, k);
    }
  }

  ghost predicate PortOf(port: string, sign: string, zeros: nat, k: nat) {
    port == sign + (Numbers.Zeros(zeros) + Numbers.Decimal(k)) && (sign == "" || sign == "+" || sign == "-")
  }

  /** The connections that can be saved: a SQLite file with a name, or a server of one of two
      kinds with a host, a name and a user, and a port that is left out or a number. */
  lemma UsableExactly(d: Datasource)
    ensures Usable(d) <==>
            HasText(d.name)
            && (Spells(d.dialect, "sqlite")
                || ((Spells(d.dialect, "postgres") || Spells(d.dialect, "mysql"))
                    && HasText(d.host) && HasText(d.user) && PortFits(d.port)))
  {
    LowerSpells(d.dialect, "sqlite");
    LowerSpells(d.dialect, "postgres");
    LowerSpells(d.dialect, "mysql");
    hide Lower, Spells, PortFits, Space;
  }

  /** The connection that is to be stored for one that was asked for: that one as it is, but of a
      SQLite file the dialect and the name alone. */
  ghost predicate StoredFor(asked: Datasource, stored: Datasource) {
    && stored.dialect == asked.dialect && stored.name == asked.name
    && if Spells(asked.dialect, "sqlite") then
         stored.host == stored.port == stored.user == stored.password == stored.sslMode == ""
       else stored == asked
  }

  lemma StoredAsAsked(asked: Datasource, stored: Datasource)
    ensures StoredFor(asked, stored) <==> stored == AsStored(asked)
  {
    LowerSpells(asked.dialect, "sqlite");
    hide Lower, Spells;
  }

  lemma StoredOnce(d: Datasource)
    ensures AsStored(AsStored(d)) == AsStored(d) && (Usable(d) ==> Usable(AsStored(d)))
  {
  }

  // ----- what a save comes to -----

  /** Where a save can fail: the driver would read the connection otherwise than it is
      written, or an operation on the file system fails. */
  datatype SaveStep = Misread | MakeDirectory | CreateTemporary | WriteWhole | Sync | Close | RenameOver

  /** The connection a file holds after a save, and whether the save succeeded. */
  function Saved(file: Option<Datasource>, d: Datasource, failing: Option<SaveStep>): (Option<Datasource>, bool) {
    if !Usable(d) || failing.Some? then (file, false) else (Some(AsStored(d)), true)
  }

  function Loaded(file: Option<Datasource>): Option<Datasource> {
    if file.None? || file.value.dialect == "" then None else file
  }

  /** A save replaces the file or leaves it, and what a save wrote is what is loaded. */
  lemma SavedIsLoaded(file: Option<Datasource>, d: Datasource, failing: Option<SaveStep>)
    ensures var (after, ok) := Saved(file, d, failing);
            && (ok <==> Usable(d) && failing.None?)
            && (ok ==> after == Loaded(after) == Some(AsStored(d)) && StoredFor(d, Loaded(after).value))
            && (!ok ==> after == file)
    ensures Loaded(file) == None <==> file == None || file.value.dialect == ""
    ensures Loaded(file) != None ==> Loaded(file) == file
  {
    StoredAsAsked(d, AsStored(d));
    if Usable(d) {
      assert d.dialect != "" by {
        assert Lower("") == "";
      }
    }
  }

  // ----- the directory -----

  /** What a name holds: a part of a connection, or a whole one that a power cut may still
      take, or a whole one on the disk. */
  datatype Stored = Partial | Volatile(ds: Datasource) | Whole(ds: Datasource)

  type Files = map<string, Stored>

  /** What reading a name gives: a part is no connection. */
  function Held(files: Files, path: string): Option<Datasource> {
    if path !in files || files[path].Partial? then None else Some(files[path].ds)
  }

  /** What a power cut can make of the contents of files: what was not yet on the disk is there
      whole or in part. */
  ghost predicate Survives(before: Files, after: Files) {
    && after.Keys == before.Keys
    && forall name :: name in before ==>
                        if before[name].Volatile? then after[name] == Partial || after[name] == Whole(before[name].ds)
                        else after[name] == before[name]
  }

  /** How a save goes: through; up to an operation that fails, perhaps unable to take its own
      copy away again; or up to where the process stops. */
  datatype Fate = Succeeds | Fails(step: SaveStep, leftover: bool) | Stops(step: SaveStep)

  /** A state on the way of a save: the path holds what it held before or the new connection
      whole, on the disk, and no other name but the copy's is touched. */
  ghost predicate OnTheWay(before: Files, now: Files, path: string, staged: string, d: Datasource) {
    && now - {path, staged} == before - {path, staged}
    && (((path in now <==> path in before) && (path in now ==> now[path] == before[path]))
        || (Usable(d) && path in now && now[path] == Whole(AsStored(d))))
  }

  /** A state in which nothing but the copy is new. */
  ghost predicate Aside(before: Files, now: Files, staged: string) {
    now - {staged} == before
  }

  /** The states since those that were seen before are all of that kind. */
  ghost predicate AllAside(before: Files, was: seq<Files>, seen: seq<Files>, staged: string) {
    |was| <= |seen| && seen[..|was|] == was && forall k :: |was| <= k < |seen| ==> Aside(before, seen[k], staged)
  }

  lemma NothingYet(before: Files, was: seq<Files>, staged: string)
    requires staged !in before
    ensures Aside(before, before, staged) && AllAside(before, was, was, staged)
  {
  }

  lemma AsideIsOnTheWay(before: Files, now: Files, path: string, staged: string, d: Datasource)
    requires Aside(before, now, staged) && staged != path
    ensures OnTheWay(before, now, path, staged, d)
  {
    assert now - {path, staged} == (now - {staged}) - {path} && before - {path, staged} == before - {path};
    assert path in now <==> path in now - {staged};
  }

  lemma HeldAside(before: Files, now: Files, path: string, staged: string)
    requires Aside(before, now, staged) && staged != path
    ensures Held(now, path) == Held(before, path)
  {
    assert path in now <==> path in now - {staged};
  }

  lemma AllAreOnTheWay(before: Files, was: seq<Files>, seen: seq<Files>, path: string, staged: string, d: Datasource)
    requires AllAside(before, was, seen, staged) && staged != path
    ensures forall k :: |was| <= k < |seen| ==> OnTheWay(before, seen[k], path, staged, d)
    ensures forall k :: |was| <= k < |seen| ==> Held(seen[k], path) == Held(before, path)
  {
    forall k | |was| <= k < |seen|
      ensures OnTheWay(before, seen[k], path, staged, d) && Held(seen[k], path) == Held(before, path)
    {
      AsideIsOnTheWay(before, seen[k], path, staged, d);
      HeldAside(before, seen[k], path, staged);
    }
  }

  lemma ReplacedIsOnTheWay(before: Files, path: string, staged: string, d: Datasource)
    requires Usable(d) && staged != path && staged !in before
    ensures OnTheWay(before, before[path := Whole(AsStored(d))], path, staged, d)
    ensures Held(before[path := Whole(AsStored(d))], path) == Some(AsStored(d))
  {
    assert before[path := Whole(AsStored(d))] - {path, staged} == before - {path, staged};
  }

  lemma SavedHeld(was: Option<Datasource>, d: Datasource, fate: Fate)
    requires Usable(d)
    ensures Saved(was, d, if fate.Succeeds? then None else Some(fate.step))
            == if fate.Succeeds? then (Some(AsStored(d)), true) else (was, false)
  {
  }

  class ConfigDirectory {
    const path: string
    var files: Files
    /** Every state the directory has been in. Nothing writes the directory itself to the disk,
        so a cut may take back any number of the last creations, renames and removals. */
    ghost var seen: seq<Files>
    /** What the path held at first, and every connection that was saved. */
    ghost var known: set<Option<Datasource>>

    /** In every state the path holds one of the known connections, and holds it on the disk. */
    ghost predicate Valid()
      reads this
    {
      && seen != [] && seen[|seen| - 1] == files
      && forall k :: 0 <= k < |seen| ==> OnTheDisk(seen[k], path) && Held(seen[k], path) in known
    }

    /** A power cut can leave this of the files. */
    ghost predicate CanBeLeft(left: Files)
      reads this
    {
      exists k :: 0 <= k < |seen| && Survives(seen[k], left)
    }

    constructor (path: string, files: Files)
      requires OnTheDisk(files, path)
      ensures Valid() && this.path == path && this.files == files && seen == [files] && known == {Held(files, path)}
    {
      this.path := path;
      this.files := files;
      seen := [files];
      known := {Held(files, path)};
    }

    /** A save by way of a copy under a name of its own. Every state on its way holds at the path
        what was there, but for the last of a save that goes through, which holds the new
        connection whole; the copy stays only where the process stopped or could not remove it. */
    method SaveDatasource(d: Datasource, staged: string, fate: Fate) returns (ok: bool)
      requires Valid() && staged !in files && staged != path
      modifies this
      ensures Valid() && known == old(known) + if ok then {Some(AsStored(d))} else {}
      ensures ok <==> Usable(d) && fate.Succeeds?
      ensures ok ==> files == old(files)[path := Whole(AsStored(d))] && StoredFor(d, files[path].ds)
      ensures !ok ==> files - {staged} == old(files)
      ensures (Held(files, path), ok)
        == Saved(old(Held(files, path)), d, if fate.Succeeds? then None else Some(fate.step))
      ensures staged in files ==> !ok && (fate.Stops? || (fate.Fails? && fate.leftover))
      ensures |old(seen)| <= |seen| && seen[..|old(seen)|] == old(seen)
      ensures forall k :: |old(seen)| <= k < |seen| ==> OnTheWay(old(files), seen[k], path, staged, d)
      ensures forall k :: |old(seen)| <= k < |seen| - (if ok then 1 else 0)
                          ==> Held(seen[k], path) == old(Held(files, path))
    {
      if !Usable(d) || (!fate.Succeeds? && fate.step == Misread) {
        return false;
      }
      StoredAsAsked(d, AsStored(d));
      hide Usable, AsStored, OnTheWay, Saved, StoredFor;
      var ds := AsStored(d);
      ok := Stage(ds, staged, fate);
      AllAreOnTheWay(old(files), old(seen), seen, path, staged, d);
      if ok {
        known := known + {Some(ds)};
        ghost var before := seen;
        files := (files - {staged})[path := files[staged]];
        seen := seen + [files];
        assert seen[..|before|] == before;
        ReplacedIsOnTheWay(old(files), path, staged, d);
      } else {
        HeldAside(old(files), files, path, staged);
      }
      SavedHeld(old(Held(files, path)), d, fate);
    }

    /** The copy, written and on the disk; the path is not touched. */
    method Stage(ds: Datasource, staged: string, fate: Fate) returns (ok: bool)
      requires Valid() && staged !in files && staged != path && (fate.Succeeds? || fate.step != Misread)
      modifies this`files, this`seen
      ensures Valid() && ok == fate.Succeeds?
      ensures ok ==> files == old(files)[staged := Whole(ds)]
      ensures !ok ==> Aside(old(files), files, staged)
                      && (staged in files ==> fate.Stops? || (fate.Fails? && fate.leftover))
      ensures AllAside(old(files), old(seen), seen, staged)
    {
      hide Valid, Aside, AllAside;
      ghost var before, was := files, seen;
      NothingYet(before, was, staged);
      if !fate.Succeeds? && (fate.step == MakeDirectory || fate.step == CreateTemporary) {
        return false;
      }
      Put(staged, Partial, before, was);
      if !fate.Succeeds? && fate.step == WriteWhole {
        Discard(staged, fate, before, was);
        return false;
      }
      Put(staged, Volatile(ds), before, was);
      if !fate.Succeeds? && fate.step == Sync {
        Discard(staged, fate, before, was);
        return false;
      }
      Put(staged, Whole(ds), before, was);
      if !fate.Succeeds? {
        Discard(staged, fate, before, was);
        return false;
      }
      return true;
    }

    method Put(staged: string, stored: Stored, ghost before: Files, ghost was: seq<Files>)
      requires Valid() && staged != path && staged !in before && Aside(before, files, staged)
        && AllAside(before, was, seen, staged)
      modifies this`files, this`seen
      ensures Valid() && files == old(files)[staged := stored]
      ensures Aside(before, files, staged) && AllAside(before, was, seen, staged)
    {
      files := files[staged := stored];
      seen := seen + [files];
      assert files - {staged} == old(files) - {staged};
    }

    /** The deferred removal of the copy, which a stopped process does not come to. */
    method Discard(staged: string, fate: Fate, ghost before: Files, ghost was: seq<Files>)
      requires Valid() && staged != path && staged !in before && Aside(before, files, staged)
        && AllAside(before, was, seen, staged)
      requires !fate.Succeeds?
      modifies this`files, this`seen
      ensures Valid() && files == (if fate.Stops? || fate.leftover then old(files) else old(files) - {staged})
      ensures Aside(before, files, staged) && AllAside(before, was, seen, staged)
    {
      if fate.Fails? && !fate.leftover {
        files := files - {staged};
        seen := seen + [files];
        assert files - {staged} == old(files) - {staged};
      }
    }

    /** A power cut at any moment of any run of saves leaves at the path what was there at first
        or a connection that was saved, and never a part of one. */
    lemma CutsTakeNoConnection(left: Files)
      requires Valid() && CanBeLeft(left)
      ensures Held(left, path) in known && (path in left ==> left[path].Whole? || left[path].Partial?)
      ensures exists k :: 0 <= k < |seen| && Held(left, path) == Held(seen[k], path)
    {
      var k :| 0 <= k < |seen| && Survives(seen[k], left);
      HeldSurvives(seen[k], left, path);
    }

    /** As the directory itself is never written to the disk, any of the states can come back:
        a cut can undo a save that has succeeded. */
    lemma CutsCanUndoASave(k: nat) returns (left: Files)
      requires Valid() && k < |seen|
      ensures CanBeLeft(left) && Held(left, path) == Held(seen[k], path)
    {
      left := map name | name in seen[k] :: if seen[k][name].Volatile? then Partial else seen[k][name];
      assert Survives(seen[k], left);
    }
  }

  ghost predicate OnTheDisk(files: Files, path: string) {
    path in files ==> !files[path].Volatile?
  }

  lemma HeldSurvives(before: Files, left: Files, path: string)
    requires OnTheDisk(before, path) && Survives(before, left)
    ensures Held(left, path) == Held(before, path) && (path in left ==> left[path] == before[path])
  {
  }

  /** A power cut during a save leaves, of each state on its way, the connection that was there
      or the new one. */
  lemma SaveIsAtomic(before: Files, now: Files, left: Files, path: string, staged: string, d: Datasource)
    requires OnTheDisk(before, path) && OnTheWay(before, now, path, staged, d) && Survives(now, left)
    ensures Held(left, path) == Held(before, path) || (Usable(d) && Held(left, path) == Some(AsStored(d)))
    ensures forall name :: name != path && name != staged ==> (name in left <==> name in before)
  {
    HeldSurvives(now, left, path);
    forall name | name != path && name != staged ensures name in now <==> name in before {
      assert name in now - {path, staged} <==> name in before - {path, staged};
    }
  }
}
