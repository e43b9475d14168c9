/** The two-phase renumbering of a flat directory in tools/new_rename.py. */
module Renumber {
  import opened Decimal
  import opened Guard

  type Content = string

  type Files = map<string, Content>

  // os.path.splitext, on a name without separators

  // str.rfind of a dot
  function LastDot(s: string): (d: int)
    ensures -1 <= d < |s|
    ensures d >= 0 ==> s[d] == '.'
    ensures forall k :: d < k < |s| ==> s[k] != '.'
    decreases |s|
  {
    if s == "" then -1
    else if s[|s| - 1] == '.' then |s| - 1
    else LastDot(s[..|s| - 1])
  }

  // Whether s begins with something else than dots before its last dot; leading dots begin no suffix.
  predicate HasSuffix(s: string) {
    exists k :: 0 <= k < LastDot(s) && s[k] != '.'
  }

  function Root(s: string): string {
    if HasSuffix(s) then s[..LastDot(s)] else s
  }

  function Suffix(s: string): string {
    if HasSuffix(s) then s[LastDot(s)..] else ""
  }

  lemma RootAndSuffix(s: string)
    ensures Root(s) + Suffix(s) == s
    ensures Suffix(s) == "" || (Suffix(s)[0] == '.' && forall c <- Suffix(s)[1..] :: c != '.')
  {
    var d := LastDot(s);
    if HasSuffix(s) {
      assert s[..d] + s[d..] == s;
      forall c | c in s[d..][1..] ensures c != '.' {
        var k :| 0 <= k < |s[d..][1..]| && s[d..][1..][k] == c;
        assert c == s[d + 1 + k];
      }
    }
  }

  // e is the extension that splitext finds: from the last dot on, if something else than a dot stands before it.
  ghost predicate IsExtension(e: string, s: string) {
    if exists j, k :: 0 <= j < k < |s| && s[j] != '.' && s[k] == '.'
    then IsFromLastDot(e, s)
    else e == ""
  }

  // e is what stands in s from its last dot on; nothing if it has no dot.
  ghost predicate IsFromLastDot(e: string, s: string) {
    if '.' in s then exists k :: 0 <= k < |s| && s[k] == '.' && e == s[k..] && '.' !in s[k + 1..]
    else e == ""
  }

  lemma SuffixIs(s: string)
    ensures IsExtension(Suffix(s), s) && IsFromLastDot(FromLastDot(s), s)
  {
    var d := LastDot(s);
    if j, k :| 0 <= j < k < |s| && s[j] != '.' && s[k] == '.' {
      assert 0 <= j < d && s[j] != '.';
    }
    assert d >= 0 ==> s[d] == '.' && '.' !in s[d + 1..];
  }

  // Everything from the last dot on, even behind leading dots only.
  function FromLastDot(s: string): string {
    if LastDot(s) >= 0 then s[LastDot(s)..] else ""
  }

  // The directory.

  // A listing names every file once, in any order.
  ghost predicate Listing(f: Files, names: seq<string>) {
    && (forall i, j :: 0 <= i < j < |names| ==> names[i] != names[j])
    && (forall i :: 0 <= i < |names| ==> names[i] in f)
    && (forall n <- f :: exists i :: 0 <= i < |names| && names[i] == n)
  }

  // os.rename of an existing file, onto whatever stands there.
  function Renamed(f: Files, a: string, b: string): Files
    requires a in f
  {
    (f - {a})[b := f[a]]
  }

  lemma RenamedSize(f: Files, a: string, b: string)
    requires a in f
    ensures |Renamed(f, a, b)| == if b in f && b != a then |f| - 1 else |f|
  {
    assert (f - {a}).Keys == f.Keys - {a};
    assert Renamed(f, a, b).Keys == (f.Keys - {a}) + {b};
    if b in f && b != a {
      assert Renamed(f, a, b).Keys == f.Keys - {a};
    }
  }

  class Directory {
    var files: Files
    var overwrites: nat  // how many renames have replaced another file

    // os.listdir
    method ListDir() returns (names: seq<string>)
      ensures Listing(files, names)
    {
      names := [];
      var rest := files.Keys;
      while rest != {}
        invariant rest <= files.Keys
        invariant forall i, j :: 0 <= i < j < |names| ==> names[i] != names[j]
        invariant forall i :: 0 <= i < |names| ==> names[i] in files && names[i] !in rest
        invariant forall n <- files.Keys - rest :: exists i :: 0 <= i < |names| && names[i] == n
      {
        var name :| name in rest;
        ghost var before, left := names, rest;
        names := names + [name];
        rest := rest - {name};
        forall n | n in files.Keys - rest ensures exists i :: 0 <= i < |names| && names[i] == n {
          if n == name {
            assert names[|before|] == n;
          } else {
            assert n in files.Keys - left;
            var i :| 0 <= i < |before| && before[i] == n;
            assert names[i] == n;
          }
        }
      }
      assert files.Keys - rest == files.Keys;
    }

    // os.rename
    method Rename(a: string, b: string)
      requires a in files
      modifies this
      ensures files == Renamed(old(files), a, b)
      ensures overwrites == old(overwrites) + if b in old(files) && b != a then 1 else 0
    {
      if b in files && b != a {
        overwrites := overwrites + 1;
      }
      files := (files - {a})[b := files[a]];
    }

    // The search of pre_proc for a free name, for one file.
    method FreeName(name: string) returns (count: nat)
      ensures PreName(count, name) !in files
      ensures forall k :: 0 <= k < count ==> PreName(k, name) in files
    {
      count := 0;
      PreNamesFit(files, name, count);
      while PreName(count, name) in files
        invariant forall k :: 0 <= k < count ==> PreName(k, name) in files
        invariant count <= |files|
        decreases |files| - count
      {
        count := count + 1;
        PreNamesFit(files, name, count);
      }
    }

    // pre_proc on a flat directory. `order` is the listing it met, given[i] the new name of order[i].
    method PreProc() returns (ghost order: seq<string>, ghost given: seq<string>)
      modifies this
      ensures Listing(old(files), order) && Moved(old(files), order, given, files)
      ensures forall i :: 0 <= i < |given| ==> IsPreName(given[i], order[i])
      ensures ReadPre(given, order)
      ensures overwrites == old(overwrites)
    {
      var names := ListDir();
      ghost var was := files;
      order, given := names, [];
      var i := 0;
      while i < |names|
        invariant 0 <= i == |given| <= |names|
        invariant Midway(was, names, given, files)
        invariant forall j :: 0 <= j < i ==> IsPreName(given[j], order[j])
        invariant overwrites == old(overwrites)
      {
        var count := FreeName(names[i]);
        assert Stays(was, names, given, files, i);
        MidwayStep(was, names, given, files, PreName(count, names[i]));
        Rename(names[i], PreName(count, names[i]));
        given := given + [PreName(count, names[i])];
        i := i + 1;
      }
      PreNamesRead(order, given);
    }

    // One turn of the loop of really_rename.
    method NumberOne(names: seq<string>, count: nat, ghost was: Files)
      requires count < |names| && OnTrack(was, names, count, files)
      requires forall i, j :: 0 <= i < j < |names| ==> names[i] != names[j]
      requires forall j :: count <= j < |names| ==> names[j] in files
      modifies this
      ensures files == Renamed(old(files), names[count], Target(names, count))
      ensures OnTrack(was, names, count + 1, files)
      ensures forall j :: count < j < |names| ==> names[j] in files
      ensures |files| + overwrites == |old(files)| + old(overwrites) && overwrites >= old(overwrites)
      ensures Clear(names, count + 1) <==> Clear(names, count) && overwrites == old(overwrites)
    {
      OnTrackStep(was, names, count, files);
      RenamedSize(files, names[count], Target(names, count));
      Rename(names[count], Target(names, count));
    }

    // really_rename on any flat directory. It keeps every file exactly when no target is a name that is
    // still to be renamed; else the directory shrinks by one file for each overwrite.
    method ReallyRename() returns (ghost order: seq<string>)
      modifies this
      ensures Listing(old(files), order)
      ensures overwrites == old(overwrites) <==> Clear(order, |order|)
      ensures |files| + overwrites == |old(files)| + old(overwrites)
      ensures Clear(order, |order|) ==> Moved(old(files), order, Targets(order), files)
      ensures ReadTargets(Targets(order), order)
    {
      order := NumberAll();
      TargetsRead(order);
    }

    method NumberAll() returns (ghost order: seq<string>)
      modifies this
      ensures Listing(old(files), order)
      ensures overwrites == old(overwrites) <==> Clear(order, |order|)
      ensures |files| + overwrites == |old(files)| + old(overwrites)
      ensures Clear(order, |order|) ==> Moved(old(files), order, Targets(order), files)
    {
      var names := ListDir();
      ghost var was := files;
      order := names;
      OnTrackFirst(was, names);
      var count := 0;
      while count < |names|
        invariant 0 <= count <= |names|
        invariant forall j :: count <= j < |names| ==> names[j] in files
        invariant |files| + overwrites == |was| + old(overwrites) && overwrites >= old(overwrites)
        invariant overwrites == old(overwrites) <==> Clear(names, count)
        invariant OnTrack(was, names, count, files)
      {
        NumberOne(names, count, was);
        count := count + 1;
      }
      if Clear(names, count) {
        OnTrackLast(was, names, files);
      }
    }

    // rename_by_num on a flat directory: the file that was origin[i] ends as number i, and no rename has
    // replaced another file.
    method RenameByNum() returns (ghost origin: seq<string>)
      modifies this
      ensures Listing(old(files), origin) && Moved(old(files), origin, Numbered(origin), files)
      ensures ReadNumbered(Numbered(origin), origin)
      ensures overwrites == old(overwrites)
    {
      ghost var was := files;
      ghost var first, given := PreProc();
      ghost var mid := files;
      ghost var order := ReallyRename();
      OriginIsListing(was, first, given, mid, order);
      PreNamesAreClear(given, first, order);
      MovedTwice(was, first, given, mid, order, Targets(order), files);
      NumberedIs(first, given, order);
      origin := Origin(first, given, order);
      NumberedReads(origin);
    }
  }

  // '%d' % (count,), with the suffix
  function Target(order: seq<string>, i: nat): string
    requires i < |order|
  {
    Numeral(i) + Suffix(order[i])
  }

  function Targets(order: seq<string>): seq<string> {
    seq(|order|, i requires 0 <= i < |order| => Target(order, i))
  }

  // The target of order[a] is no name still to be renamed.
  predicate ClearAt(order: seq<string>, a: nat)
    requires a < |order|
  {
    forall b :: a < b < |order| ==> Target(order, a) != order[b]
  }

  predicate Clear(order: seq<string>, i: nat)
    requires i <= |order|
  {
    forall a {:trigger ClearAt(order, a)} :: 0 <= a < i ==> ClearAt(order, a)
  }

  // The names after both phases: a number, and everything from the last dot of the first name on.
  function Numbered(origin: seq<string>): seq<string> {
    seq(|origin|, i requires 0 <= i < |origin| => Numeral(i) + FromLastDot(origin[i]))
  }

  // What the names look like: decimal numbers without leading zeros, before or behind literal text.

  ghost predicate ReadsPre(n: string, name: string) {
    exists count: nat, t: string :: Writes(t, count) && n == "_pre_" + t + "_" + name
  }

  ghost predicate ReadsTarget(n: string, i: nat, name: string) {
    exists t: string, e: string :: Writes(t, i) && IsExtension(e, name) && n == t + e
  }

  ghost predicate ReadsNumbered(n: string, i: nat, name: string) {
    exists t: string, e: string :: Writes(t, i) && IsFromLastDot(e, name) && n == t + e
  }

  lemma PreNameIs(count: nat, t: string, name: string)
    requires Writes(t, count)
    ensures PreName(count, name) == "_pre_" + t + "_" + name
  {
    RootAndSuffix(name);
    TextWrites(t, count);
  }

  lemma PreNameReads(n: string, name: string)
    requires IsPreName(n, name)
    ensures ReadsPre(n, name)
  {
    var count: nat :| n == PreName(count, name);
    TextWrites(Text(count), count);
    PreNameIs(count, Text(count), name);
  }

  ghost predicate ReadPre(given: seq<string>, order: seq<string>) {
    |given| == |order| && forall i :: 0 <= i < |order| ==> ReadsPre(given[i], order[i])
  }

  lemma PreNamesRead(order: seq<string>, given: seq<string>)
    requires |given| == |order| && forall i :: 0 <= i < |given| ==> IsPreName(given[i], order[i])
    ensures ReadPre(given, order)
  {
    forall i | 0 <= i < |given| ensures ReadsPre(given[i], order[i]) {
      PreNameReads(given[i], order[i]);
    }
  }

  ghost predicate ReadTargets(given: seq<string>, order: seq<string>) {
    |given| == |order| && forall i :: 0 <= i < |order| ==> ReadsTarget(given[i], i, order[i])
  }

  ghost predicate ReadNumbered(given: seq<string>, origin: seq<string>) {
    |given| == |origin| && forall i :: 0 <= i < |origin| ==> ReadsNumbered(given[i], i, origin[i])
  }

  lemma TargetsRead(order: seq<string>)
    ensures ReadTargets(Targets(order), order)
  {
    forall i | 0 <= i < |order| ensures ReadsTarget(Targets(order)[i], i, order[i]) {
      TextWrites(Text(i), i);
      SuffixIs(order[i]);
      assert Targets(order)[i] == Text(i) + Suffix(order[i]);
    }
  }

  lemma NumberedReads(origin: seq<string>)
    ensures ReadNumbered(Numbered(origin), origin)
  {
    forall i | 0 <= i < |origin| ensures ReadsNumbered(Numbered(origin)[i], i, origin[i]) {
      TextWrites(Text(i), i);
      SuffixIs(origin[i]);
      assert Numbered(origin)[i] == Text(i) + FromLastDot(origin[i]);
    }
  }

  // How much of s stands before its first dot.
  function FirstDot(s: string): nat {
    if s == "" || s[0] == '.' then 0 else 1 + FirstDot(s[1..])
  }

  lemma {:induction false} FirstDotIs(s: string, x: string)
    requires forall k :: 0 <= k < |s| ==> s[k] != '.'
    requires x == "" || x[0] == '.'
    ensures FirstDot(s + x) == |s|
  {
    if s == "" {
      assert s + x == x;
    } else {
      assert (s + x)[1..] == s[1..] + x;
      FirstDotIs(s[1..], x);
    }
  }

  lemma NumeralsApart(a: nat, x: string, b: nat, y: string)
    requires Numeral(a) + x == Numeral(b) + y
    requires (x == "" || x[0] == '.') && (y == "" || y[0] == '.')
    ensures a == b
  {
    var s, t := Numeral(a), Numeral(b);
    FirstDotIs(s, x);
    FirstDotIs(t, y);
    assert s == (s + x)[..|s|] == (t + y)[..|t|] == t;
    NumeralInjective(a, b);
  }

  // While nothing is lost, a target is taken by another file exactly when it is a name still to be renamed.
  lemma TargetTaken(d: Files, order: seq<string>, i: nat, f: Files)
    requires i < |order| && Midway(d, order, Targets(order)[..i], f)
    ensures Target(order, i) in f && Target(order, i) != order[i] <==>
            exists j :: i < j < |order| && order[j] == Target(order, i)
  {
    var given, t := Targets(order)[..i], Target(order, i);
    forall j | i < j < |order| && order[j] == t ensures t in f && t != order[i] {
      assert Stays(d, order, given, f, j);
    }
    if t in f && t != order[i] {
      if t in given {
        var a :| 0 <= a < i && given[a] == t;
        RootAndSuffix(order[a]);
        RootAndSuffix(order[i]);
        NumeralsApart(a, Suffix(order[a]), i, Suffix(order[i]));
      } else {
        var k :| 0 <= k < |order[i..]| && order[i..][k] == t;
        assert order[i + k] == t;
      }
    }
  }

  // The state of the loop of really_rename.
  ghost predicate OnTrack(d: Files, order: seq<string>, i: nat, f: Files)
    requires i <= |order|
  {
    forall z {:trigger Look(z)} :: Look(z) ==> (Clear(order, i) ==> Midway(d, order, Targets(order)[..i], f))
  }

  // One turn of it.
  lemma OnTrackStep(d: Files, order: seq<string>, i: nat, f: Files)
    requires i < |order| && OnTrack(d, order, i, f) && order[i] in f
    ensures Clear(order, i + 1) <==> Clear(order, i) && !(Target(order, i) in f && Target(order, i) != order[i])
    ensures OnTrack(d, order, i + 1, Renamed(f, order[i], Target(order, i)))
  {
    if Clear(order, i) {
      assert Look(0);
      TargetTaken(d, order, i, f);
      assert ClearAt(order, i) <==> !(Target(order, i) in f && Target(order, i) != order[i]);
      if Clear(order, i + 1) {
        MidwayStep(d, order, Targets(order)[..i], f, Target(order, i));
        assert Targets(order)[..i + 1] == Targets(order)[..i] + [Target(order, i)];
      }
    }
  }

  lemma OnTrackFirst(d: Files, order: seq<string>)
    requires Listing(d, order)
    ensures OnTrack(d, order, 0, d)
  {
    assert Targets(order)[..0] == [] && order[0..] == order;
  }

  lemma OnTrackLast(d: Files, order: seq<string>, f: Files)
    requires OnTrack(d, order, |order|, f) && Clear(order, |order|)
    ensures Moved(d, order, Targets(order), f)
  {
    assert Look(0);
    assert Targets(order)[..|order|] == Targets(order);
  }

  // '_pre_%d_%s' % (count, name), with the suffix
  function PreName(count: nat, name: string): string {
    "_pre_" + Numeral(count) + "_" + Root(name) + Suffix(name)
  }

  ghost predicate IsPreName(n: string, name: string) {
    exists count: nat :: n == PreName(count, name)
  }

  lemma PreNameInjective(a: nat, b: nat, name: string)
    requires PreName(a, name) == PreName(b, name)
    ensures a == b
  {
    var s, t := Numeral(a), Numeral(b);
    assert |PreName(a, name)| == 5 + |s| + 1 + |Root(name)| + |Suffix(name)|;
    assert |PreName(b, name)| == 5 + |t| + 1 + |Root(name)| + |Suffix(name)|;
    assert PreName(a, name)[5..5 + |s|] == s;
    assert PreName(b, name)[5..5 + |t|] == t;
    NumeralInjective(a, b);
  }

  // The pigeonhole behind the search: a directory holds no more _pre_ names of one file than files.
  lemma {:induction false} PreNamesFit(f: Files, name: string, count: nat)
    requires forall k :: 0 <= k < count ==> PreName(k, name) in f
    ensures count <= |f|
    decreases count
  {
    if count > 0 {
      var last := PreName(count - 1, name);
      forall k | 0 <= k < count - 1 ensures PreName(k, name) in f - {last} {
        if PreName(k, name) == last {
          PreNameInjective(k, count - 1, name);
        }
      }
      PreNamesFit(f - {last}, name, count - 1);
      assert (f - {last}).Keys == f.Keys - {last};
    }
  }

  // Part way through a listing, with `given` the new names so far.

  predicate Stays(d: Files, order: seq<string>, given: seq<string>, f: Files, j: nat)
    requires |given| <= j < |order|
  {
    order[j] in d && order[j] in f && f[order[j]] == d[order[j]]
  }

  predicate Went(d: Files, order: seq<string>, given: seq<string>, f: Files, j: nat)
    requires j < |given| <= |order|
  {
    order[j] in d && given[j] in f && f[given[j]] == d[order[j]]
  }

  ghost predicate Apart(order: seq<string>, given: seq<string>) {
    && (forall i, j :: 0 <= i < j < |order| ==> order[i] != order[j])
    && (forall i, j :: 0 <= i < j < |given| ==> given[i] != given[j])
    && (forall i, j :: 0 <= i < |given| <= j < |order| ==> given[i] != order[j])
  }

  // Each file of d is in f once, with its content, under its new name or still under its old one.
  ghost predicate Midway(d: Files, order: seq<string>, given: seq<string>, f: Files) {
    && |given| <= |order| && Apart(order, given)
    && (forall j {:trigger Went(d, order, given, f, j)} :: 0 <= j < |given| ==> Went(d, order, given, f, j))
    && (forall j {:trigger Stays(d, order, given, f, j)} ::
          |given| <= j < |order| ==> Stays(d, order, given, f, j))
    && (forall n <- f :: n in given || n in order[|given|..])
  }

  // Each file of d is in f once, with its content, under its new name.
  ghost predicate Moved(d: Files, order: seq<string>, given: seq<string>, f: Files) {
    |given| == |order| && Midway(d, order, given, f)
  }

  lemma ApartStep(d: Files, order: seq<string>, given: seq<string>, f: Files, name: string)
    requires Midway(d, order, given, f) && |given| < |order|
    requires name !in f || name == order[|given|]
    ensures Apart(order, given + [name])
  {
    var n, given' := |given|, given + [name];
    forall i, j | 0 <= i < j < |given'| ensures given'[i] != given'[j] {
      assert Went(d, order, given, f, i);
    }
    forall i, j | 0 <= i < |given'| <= j < |order| ensures given'[i] != order[j] {
      assert Stays(d, order, given, f, j);
    }
  }

  lemma MidwayStep(d: Files, order: seq<string>, given: seq<string>, f: Files, name: string)
    requires Midway(d, order, given, f) && |given| < |order|
    requires order[|given|] in f && (name !in f || name == order[|given|])
    ensures Midway(d, order, given + [name], Renamed(f, order[|given|], name))
  {
    var n, given', f' := |given|, given + [name], Renamed(f, order[|given|], name);
    ApartStep(d, order, given, f, name);
    assert Stays(d, order, given, f, n);
    forall j {:trigger Went(d, order, given', f', j)} | 0 <= j < |given'| ensures Went(d, order, given', f', j) {
      if j < n {
        assert Went(d, order, given, f, j);
      }
    }
    forall j {:trigger Stays(d, order, given', f', j)} | |given'| <= j < |order|
      ensures Stays(d, order, given', f', j)
    {
      assert Stays(d, order, given, f, j);
    }
    forall a | a in f' ensures a in given' || a in order[|given'|..] {
      if a != name && a in order[n..] {
        assert order[n..] == [order[n]] + order[n + 1..];
      }
    }
  }

  // Both phases together.

  lemma LastDotBehind(a: string, b: string)
    requires forall k :: 0 <= k < |a| ==> a[k] != '.'
    ensures LastDot(a + b) == if LastDot(b) >= 0 then |a| + LastDot(b) else -1
  {
    var d, e := LastDot(a + b), LastDot(b);
    if e >= 0 {
      assert (a + b)[|a| + e] == '.';
      assert b[d - |a|] == '.';
    }
  }

  lemma SuffixBehind(a: string, b: string)
    requires a != "" && forall k :: 0 <= k < |a| ==> a[k] != '.'
    ensures Suffix(a + b) == FromLastDot(b)
  {
    LastDotBehind(a, b);
    assert (a + b)[0] == a[0];
    if LastDot(b) >= 0 {
      assert (a + b)[|a| + LastDot(b)..] == b[LastDot(b)..];
    }
  }

  lemma SuffixOfPreName(count: nat, name: string)
    ensures Suffix(PreName(count, name)) == FromLastDot(name)
    ensures PreName(count, name)[0] == '_'
  {
    var before := "_pre_" + Numeral(count) + "_";
    RootAndSuffix(name);
    var s := PreName(count, name);
    assert s == before + (Root(name) + Suffix(name)) == before + name;
    assert before[0] == '_';
    SuffixBehind(before, name);
  }

  // Behind pre_proc, no target is in the way.
  lemma PreNamesAreClear(given: seq<string>, first: seq<string>, order: seq<string>)
    requires |given| == |first| && forall i :: 0 <= i < |given| ==> IsPreName(given[i], first[i])
    requires forall i :: 0 <= i < |order| ==> order[i] in given
    ensures Clear(order, |order|)
  {
    forall a, b | 0 <= a < b < |order| ensures Target(order, a) != order[b] {
      var j :| 0 <= j < |given| && given[j] == order[b];
      assert IsPreName(given[j], first[j]);
      var count: nat :| given[j] == PreName(count, first[j]);
      SuffixOfPreName(count, first[j]);
      assert Target(order, a)[0] == Numeral(a)[0];
    }
  }

  // Where a name stands in a list.
  ghost function Place(names: seq<string>, n: string): (k: nat)
    requires n in names
    ensures k < |names| && names[k] == n
  {
    var k :| 0 <= k < |names| && names[k] == n;
    k
  }

  // The names that the files listed in the second phase had before the first.
  ghost function Origin(first: seq<string>, given: seq<string>, order: seq<string>): seq<string>
    requires |first| == |given| && forall i :: 0 <= i < |order| ==> order[i] in given
  {
    seq(|order|, i requires 0 <= i < |order| => first[Place(given, order[i])])
  }

  lemma OriginIsListing(d: Files, first: seq<string>, given: seq<string>, mid: Files, order: seq<string>)
    requires Listing(d, first) && Moved(d, first, given, mid) && Listing(mid, order)
    ensures forall i :: 0 <= i < |order| ==> order[i] in given
    ensures Listing(d, Origin(first, given, order))
  {
    forall i | 0 <= i < |order| ensures order[i] in given {
      assert order[i] in mid;
    }
    var origin := Origin(first, given, order);
    forall i, j | 0 <= i < j < |origin| ensures origin[i] != origin[j] {
      assert order[i] != order[j];
      assert Place(given, order[i]) != Place(given, order[j]);
    }
    forall n | n in d ensures exists i :: 0 <= i < |origin| && origin[i] == n {
      var k :| 0 <= k < |first| && first[k] == n;
      assert Went(d, first, given, mid, k);
      var i :| 0 <= i < |order| && order[i] == given[k];
      assert Place(given, order[i]) == k;
      assert origin[i] == n;
    }
  }

  lemma NumberedIs(first: seq<string>, given: seq<string>, order: seq<string>)
    requires |given| == |first| && forall i :: 0 <= i < |given| ==> IsPreName(given[i], first[i])
    requires forall i :: 0 <= i < |order| ==> order[i] in given
    ensures Targets(order) == Numbered(Origin(first, given, order))
  {
    forall i | 0 <= i < |order| ensures Suffix(order[i]) == FromLastDot(Origin(first, given, order)[i]) {
      var k := Place(given, order[i]);
      assert IsPreName(given[k], first[k]);
      var count: nat :| given[k] == PreName(count, first[k]);
      SuffixOfPreName(count, first[k]);
    }
  }

  lemma MovedTwice(d: Files, first: seq<string>, given: seq<string>, mid: Files, order: seq<string>,
      last: seq<string>, f: Files)
    requires Listing(d, first) && Moved(d, first, given, mid) && Listing(mid, order) && Moved(mid, order, last, f)
    ensures forall i :: 0 <= i < |order| ==> order[i] in given
    ensures Listing(d, Origin(first, given, order)) && Moved(d, Origin(first, given, order), last, f)
  {
    OriginIsListing(d, first, given, mid, order);
    var origin := Origin(first, given, order);
    forall j {:trigger Went(d, origin, last, f, j)} | 0 <= j < |last| ensures Went(d, origin, last, f, j) {
      assert Went(mid, order, last, f, j);
      assert Went(d, first, given, mid, Place(given, order[j]));
    }
    assert origin[|last|..] == [] && order[|last|..] == [];
  }
}
