/** Paths as a walk builds them with `Path::join`, on the platforms the program is released for. */
module TreePaths {
  import opened Bytes
  import opened Metadata

  const COLON: byte := 0x3A

  function Parent(path: Path): Path requires path != [] { path[..|path| - 1] }

  function Last(path: Path): Name requires path != [] { path[|path| - 1] }

  predicate AsciiLetter(b: byte) { 0x41 <= b <= 0x5A || 0x61 <= b <= 0x7A }

  /** The name starts with a drive such as `C:`, which is a path prefix on Windows. */
  predicate DrivePrefixed(name: Name) { |name| >= 2 && AsciiLetter(name[0]) && name[1] == COLON }

  predicate BareDrive(name: Name) { DrivePrefixed(name) && |name| == 2 }

  /** A drive is a letter of either case and a colon. */
  lemma DrivePrefixedIff(name: Name)
    ensures DrivePrefixed(name) <==>
      exists c: char :: ('a' <= c <= 'z' || 'A' <= c <= 'Z') && |name| >= 2 && name[..2] == Ascii([c, ':'])
  {
    if DrivePrefixed(name) {
      var c := name[0] as char;
      assert name[..2] == Ascii([c, ':']);
    }
    if c: char :| ('a' <= c <= 'z' || 'A' <= c <= 'Z') && |name| >= 2 && name[..2] == Ascii([c, ':']) {
      assert name[0] == Ascii([c, ':'])[0] && name[1] == Ascii([c, ':'])[1];
    }
  }

  /** `path.join(name)` for one name: on Windows a drive replaces the path, and a bare drive takes no separator. */
  function JoinName(windows: bool, path: Path, name: Name): Path {
    if windows && DrivePrefixed(name) then [name]
    else if windows && |path| == 1 && BareDrive(path[0]) then [path[0] + name]
    else path + [name]
  }

  /** `base.join(names)`, one name after the other. */
  function Joined(windows: bool, base: Path, names: Path): Path
    decreases |names|
  {
    if names == [] then base else JoinName(windows, Joined(windows, base, Parent(names)), Last(names))
  }

  /** The path a walk that followed `names` from the root hands to its sink. */
  function Spelled(windows: bool, names: Path): Path { Joined(windows, [], names) }

  // ----- What becomes of the names -----

  ghost predicate Driven(windows: bool, names: Path) {
    windows && exists i :: 0 <= i < |names| && DrivePrefixed(names[i])
  }

  /** The names from the last drive on. */
  function FromDrive(names: Path): Path
    decreases |names|
  {
    if names == [] then []
    else if DrivePrefixed(Last(names)) then [Last(names)]
    else FromDrive(Parent(names)) + [Last(names)]
  }

  /** A bare drive and the name after it are one component. */
  function Merged(windows: bool, names: Path): Path {
    if windows && |names| >= 2 && BareDrive(names[0]) then [names[0] + names[1]] + names[2..] else names
  }

  ghost predicate NonEmpty(names: Path) { forall i :: 0 <= i < |names| ==> names[i] != [] }

  lemma DrivenSnoc(windows: bool, names: Path)
    requires names != []
    ensures Driven(windows, names) <==> Driven(windows, Parent(names)) || (windows && DrivePrefixed(Last(names)))
  {
    if Driven(windows, Parent(names)) {
      var i :| 0 <= i < |Parent(names)| && DrivePrefixed(Parent(names)[i]);
      assert DrivePrefixed(names[i]);
    }
    if Driven(windows, names) && !DrivePrefixed(Last(names)) {
      var i :| 0 <= i < |names| && DrivePrefixed(names[i]);
      assert DrivePrefixed(Parent(names)[i]);
    }
  }

  lemma MergedSnoc(windows: bool, names: Path, name: Name)
    requires NonEmpty(names) && !(windows && DrivePrefixed(name))
    ensures JoinName(windows, Merged(windows, names), name) == Merged(windows, names + [name])
  {
    if windows && |names| >= 2 && BareDrive(names[0]) {
      assert (names + [name])[2..] == names[2..] + [name];
      Assoc([names[0] + names[1]], names[2..], [name]);
    }
  }

  lemma {:induction false} FromDriveShape(names: Path)
    requires Driven(true, names)
    ensures var t := FromDrive(names); t != [] && DrivePrefixed(t[0]) && |t| <= |names|
    ensures forall i :: 0 < i < |FromDrive(names)| ==> !DrivePrefixed(FromDrive(names)[i])
    ensures NonEmpty(names) ==> NonEmpty(FromDrive(names))
    decreases |names|
  {
    DrivenSnoc(true, names);
    if !DrivePrefixed(Last(names)) { FromDriveShape(Parent(names)); }
  }

  /** Joining keeps the base and all names, or on Windows only the names from the last drive on. */
  lemma {:induction false} JoinedIs(windows: bool, base: Path, names: Path)
    requires NonEmpty(base) && NonEmpty(names) && Merged(windows, base) == base
    ensures Joined(windows, base, names) ==
      Merged(windows, if Driven(windows, names) then FromDrive(names) else base + names)
    decreases |names|
  {
    hide Merged, Driven;
    if names == [] {
      assert base + names == base && !Driven(windows, names) by { NothingDriven(windows); }
    } else {
      var parent, name := Parent(names), Last(names);
      assert NonEmpty(parent);
      JoinedIs(windows, base, parent);
      DrivenSnoc(windows, names);
      if windows && DrivePrefixed(name) {
        MergedOne(windows, name);
      } else {
        assert Driven(windows, names) <==> Driven(windows, parent);
        var kept := if Driven(windows, parent) then FromDrive(parent) else base + parent;
        if Driven(windows, parent) { DrivenShape(windows, parent); }
        MergedSnoc(windows, kept, name);
        assert names == parent + [name];
        Assoc(base, parent, [name]);
        hide JoinName, DrivePrefixed;
      }
    }
  }

  lemma NothingDriven(windows: bool)
    ensures !Driven(windows, [])
  {
  }

  lemma MergedOne(windows: bool, name: Name)
    ensures Merged(windows, [name]) == [name]
  {
  }

  lemma DrivenShape(windows: bool, names: Path)
    requires Driven(windows, names) && NonEmpty(names)
    ensures windows && NonEmpty(FromDrive(names))
  {
    FromDriveShape(names);
  }

  /** What a walk hands to its sink. */
  lemma SpelledIs(windows: bool, names: Path)
    requires NonEmpty(names)
    ensures Spelled(windows, names) == if Driven(windows, names) then Merged(windows, FromDrive(names)) else names
  {
    JoinedIs(windows, [], names);
    assert [] + names == names;
    if !Driven(windows, names) && windows && names != [] { assert !DrivePrefixed(names[0]); }
  }

  /** The names are handed over as they are iff no drive stands behind a name, and no bare drive before one. */
  lemma SpelledAsNamedIff(windows: bool, names: Path)
    requires NonEmpty(names)
    ensures Spelled(windows, names) == names <==>
      windows ==> (forall i :: 0 < i < |names| ==> !DrivePrefixed(names[i])) && !(|names| > 1 && BareDrive(names[0]))
  {
    SpelledIs(windows, names);
    if Driven(windows, names) {
      FromDriveShape(names);
      FromDriveWhole(names);
    }
  }

  lemma {:induction false} FromDriveWhole(names: Path)
    requires Driven(true, names)
    ensures (forall i :: 0 < i < |names| ==> !DrivePrefixed(names[i])) ==> FromDrive(names) == names
    ensures |FromDrive(names)| == |names| ==> FromDrive(names) == names
    decreases |names|
  {
    DrivenSnoc(true, names);
    assert names == Parent(names) + [Last(names)];
    if DrivePrefixed(Last(names)) {
      assert |names| == 1 ==> FromDrive(names) == names;
    } else {
      FromDriveWhole(Parent(names));
    }
  }

  /** Two walks are handed over alike iff they followed the same names or the same names from a drive on. */
  lemma SpelledAlikeIff(windows: bool, p: Path, q: Path)
    requires NonEmpty(p) && NonEmpty(q)
    ensures Spelled(windows, p) == Spelled(windows, q) <==>
      || p == q
      || (Driven(windows, p) && Driven(windows, q)
          && Merged(windows, FromDrive(p)) == Merged(windows, FromDrive(q)))
  {
    SpelledIs(windows, p);
    SpelledIs(windows, q);
    if Driven(windows, p) { MergedDriven(windows, p); }
    if Driven(windows, q) { MergedDriven(windows, q); }
  }

  /** What is left of driven names starts with a drive, and no other name does. */
  lemma MergedDriven(windows: bool, names: Path)
    requires Driven(windows, names) && NonEmpty(names)
    ensures var s := Merged(windows, FromDrive(names));
      && s != [] && DrivePrefixed(s[0]) && |s| <= |names| && NonEmpty(s) && Merged(windows, s) == s
      && forall i :: 0 < i < |s| ==> !DrivePrefixed(s[i])
  {
    FromDriveShape(names);
  }

  /**
   * Where a sink with destination `base` puts what it is handed: below `base` under the names followed iff
   * none of them is a drive, and otherwise somewhere that does not depend on `base`.
   */
  lemma PlacedInsideIff(windows: bool, base: Path, names: Path)
    requires base != [] && NonEmpty(base) && Merged(windows, base) == base && NonEmpty(names)
    ensures var placed := Joined(windows, base, Spelled(windows, names));
      && (placed == Merged(windows, base + names) <==> !Driven(windows, names))
      && (Driven(windows, names) ==> placed == Spelled(windows, names))
  {
    SpelledIs(windows, names);
    var s := Spelled(windows, names);
    if Driven(windows, names) {
      MergedDriven(windows, names);
      assert Driven(windows, s);
      JoinedIs(windows, base, s);
      FromDriveWhole(s);
      assert FromDrive(s) == s;
      NotBelow(windows, base, names);
    } else {
      JoinedIs(windows, base, names);
    }
  }

  lemma NotBelow(windows: bool, base: Path, names: Path)
    requires base != [] && Driven(windows, names) && NonEmpty(names)
    ensures Merged(windows, FromDrive(names)) != Merged(windows, base + names)
  {
    MergedDriven(windows, names);
    FromDriveShape(names);
    var t, all := FromDrive(names), base + names;
    if |base| == 1 && BareDrive(base[0]) && |t| == |names| {
      FromDriveWhole(names);
      assert all[0] == base[0] && all[1] == names[0];
      assert |Merged(windows, all)[0]| == 2 + |names[0]|;
    }
  }

  /** A directory named like a drive: the name below it follows without a separator, on Windows only. */
  lemma BareDriveJoins(drive: Name, name: Name)
    requires DrivePrefixed(drive) && |drive| == 2 && !DrivePrefixed(name)
    ensures Spelled(true, [drive, name]) == [drive + name] && Spelled(false, [drive, name]) == [drive, name]
  {
    JoinsTwo(true, drive, name);
    JoinsTwo(false, drive, name);
    hide DrivePrefixed;
  }

  lemma JoinsTwo(windows: bool, a: Name, b: Name)
    ensures Spelled(windows, [a, b]) == JoinName(windows, [a], b)
  {
    hide DrivePrefixed, BareDrive;
    assert Parent([a, b]) == [a] && Parent([a]) == [] && [] + [a] == [a];
    assert Joined(windows, [], [a]) == JoinName(windows, Joined(windows, [], []), a);
  }
}
