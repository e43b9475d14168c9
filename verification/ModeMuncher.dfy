/** The symbolic and rwxrwxrwx mode strings of stat/posix/modemuncher.c. */
module ModeMuncher {
  import opened Basics
  import opened Guard

  // A mode or a mask, as the set of its one bits: bit 0 is 00001, bit 8 is 00400, bit 11 is 04000.
  type Mode = set<nat>

  const SETUID: Mode := {11}  // S_ISUID, 04000
  const SETGID: Mode := {10}  // S_ISGID, 02000
  const ALL: Mode := {0, 1, 2, 3, 4, 5, 6, 7, 8, 9, 10, 11}  // 07777

  // What a call returns and leaves in *mode, or that it reads past the end of the string.
  datatype Outcome = Done(code: int, mode: Mode) | Overread

  // modesel
  function SelChar(count: nat): char {
    if count % 3 == 0 then 'r' else if count % 3 == 1 then 'w' else 'x'
  }

  function SelBits(count: nat): Mode
    requires count < 9
  {
    {8 - count}
  }

  // One turn of the loop of rwxrwxrwx; None is its early return.
  function RwxTurn(t: Mode, c: char, count: nat): Option<Mode>
    requires count < 9
  {
    if c == SelChar(count) then Some(t + SelBits(count))
    else if c == '-' then Some(t - SelBits(count))
    else if c == 's' then
      if count == 2 then Some(t + SETUID + SelBits(2))
      else if count == 5 then Some(t + SETGID + SelBits(5))
      else None
    else Some(t)
  }

  // The loop from `count` on, with t in tmp_mode; the string is read without looking for its end.
  function RwxFrom(m: Mode, t: Mode, s: string, p: nat, count: nat): Outcome
    requires count <= 9
    decreases 9 - count
  {
    if count == 9 then Done(0, t)
    else if p > |s| then Overread
    else
      match RwxTurn(t, At(s, p), count)
      case None => Done(-4, m)
      case Some(u) => RwxFrom(m, u, s, p + 1, count + 1)
  }

  function Rwx(m: Mode, s: string, p: nat): Outcome {
    RwxFrom(m, m - (SETUID + SETGID), s, p, 0)
  }

  method RwxRwxRwx(m: Mode, s: string, start: nat) returns (r: Outcome)
    ensures r == Rwx(m, s, start)
  {
    var p: nat, t, count := start, m - (SETUID + SETGID), 0;
    while count < 9
      invariant 0 <= count <= 9 && RwxFrom(m, t, s, p, count) == Rwx(m, s, start)
      decreases 9 - count
    {
      if p > |s| {
        return Overread;
      }
      var c := At(s, p);
      if c == SelChar(count) {
        t := t + SelBits(count);
      } else if c == '-' {
        t := t - SelBits(count);
      } else if c == 's' {
        if count == 2 {
          t := t + SETUID + SelBits(2);
        } else if count == 5 {
          t := t + SETGID + SelBits(5);
        } else {
          return Done(-4, m);
        }
      }
      p := p + 1;
      count := count + 1;
    }
    return Done(0, t);
  }

  // Symbolic modes.

  function WhoBits(c: char): Mode {
    match c
    case 'u' => {11, 8, 7, 6}  // 04700
    case 'g' => {10, 5, 4, 3}  // 02070
    case 'o' => {9, 2, 1, 0}   // 01007
    case 'a' => ALL
    case _ => {}
  }

  predicate InWho(c: char) {
    c == 'u' || c == 'g' || c == 'o' || c == 'a' || c == ' '
  }

  function PermBits(c: char): Mode {
    match c
    case 'r' => {8, 5, 2}  // 00444
    case 'w' => {7, 4, 1}  // 00222
    case 'x' => {6, 3, 0}  // 00111
    case 's' => {11, 10}   // 06000
    case _ => {}
  }

  predicate InPerms(c: char) {
    c == 'r' || c == 'w' || c == 'x' || c == 's' || c == ' '
  }

  predicate IsOp(c: char) {
    c == '+' || c == '-' || c == '='
  }

  // Where a run of letters of one kind ends, and the bits it selects.
  function RunEnd(s: string, p: nat, inRun: char -> bool): (q: nat)
    ensures p <= q && (p <= |s| ==> q <= |s|)
    decreases |s| - p
  {
    if p < |s| && inRun(s[p]) then RunEnd(s, p + 1, inRun) else p
  }

  function Bits(s: string, p: nat, q: nat, bits: char -> Mode, sum: Mode): Mode
    requires p <= q <= |s|
    decreases q - p
  {
    if p == q then sum else Bits(s, p + 1, q, bits, sum + bits(s[p]))
  }

  datatype Clause = Clause(who: Mode, op: char, perms: Mode)

  // What an operator does with the selected bits.
  function Change(m: Mode, op: char, bits: Mode): Mode {
    if op == '+' then m + bits
    else if op == '-' then m - bits
    else bits
  }

  // A clause without permission letters does nothing.
  function Apply(m: Mode, c: Clause): Mode {
    if c.perms == {} then m else Change(m, c.op, c.perms * c.who)
  }

  function Fold(m: Mode, cs: seq<Clause>): Mode
    decreases |cs|
  {
    if cs == [] then m else Fold(Apply(m, cs[0]), cs[1..])
  }

  // What stands at a place where a clause may begin.
  datatype Turn =
    | Triples                                // an rwxrwxrwx string
    | BadOperator
    | BadChange
    | Parsed(clause: Clause, end: nat)       // a clause, ending at NUL or ','

  // A clause from p whose operator stands at q and whose permission letters end at e.
  function ReadClause(s: string, p: nat, q: nat, e: nat): Turn
    requires p <= q < |s| && q + 1 <= e <= |s|
  {
    if At(s, e) != NUL && At(s, e) != ',' then BadChange else
    var who := Bits(s, p, q, WhoBits, {});
    Parsed(Clause(if who == {} then ALL else who, s[q], Bits(s, q + 1, e, PermBits, {})), e)
  }

  function ReadTurn(s: string, p: nat): (t: Turn)
    requires p <= |s|
    ensures t.Parsed? ==> p < t.end <= |s| && (At(s, t.end) == NUL || At(s, t.end) == ',')
  {
    if At(s, p) == 'r' || At(s, p) == '-' then Triples else
    var q := RunEnd(s, p, InWho);
    if !IsOp(At(s, q)) then BadOperator else ReadClause(s, p, q, RunEnd(s, q + 1, InPerms))
  }

  // The same, unfolded only where a proof says so.

  ghost predicate IsTurn(s: string, p: nat, t: Turn)
    requires p <= |s|
  {
    forall z {:trigger Look(z)} :: Look(z) ==> t == ReadTurn(s, p)
  }

  ghost function TurnAt(s: string, p: nat): (t: Turn)
    requires p <= |s|
    ensures IsTurn(s, p, t)
    ensures t.Parsed? ==> p < t.end <= |s| && (At(s, t.end) == NUL || At(s, t.end) == ',')
  {
    assert IsTurn(s, p, ReadTurn(s, p)) && Look(0);
    var t :| IsTurn(s, p, t);
    t
  }

  lemma TurnIs(s: string, p: nat)
    requires p <= |s|
    ensures TurnAt(s, p) == ReadTurn(s, p)
  {
    assert Look(0);
  }

  ghost function Munch(m: Mode, s: string, p: nat): Outcome
    requires p <= |s|
    decreases |s| - p
  {
    match TurnAt(s, p)
    case Triples => Rwx(m, s, p)
    case BadOperator => Done(-1, m)
    case BadChange => Done(-2, m)
    case Parsed(c, e) => if At(s, e) == ',' then Munch(Apply(m, c), s, e + 1) else Done(0, Apply(m, c))
  }

  // One of the two letter loops, adding up the bits of the letters it passes.
  method Letters(s: string, start: nat, inRun: char -> bool, bits: char -> Mode) returns (sum: Mode, p: nat)
    requires start <= |s|
    ensures p == RunEnd(s, start, inRun) && sum == Bits(s, start, p, bits, {})
  {
    p, sum := start, {};
    ghost var end := RunEnd(s, start, inRun);
    while p < |s| && inRun(s[p])
      invariant start <= p <= |s| && RunEnd(s, p, inRun) == end
      invariant Bits(s, p, end, bits, sum) == Bits(s, start, end, bits, {})
    {
      sum := sum + bits(s[p]);
      p := p + 1;
    }
  }

  // Steps 1 to 3 of mode_munch.
  method ParseTurn(s: string, p: nat) returns (t: Turn)
    requires p <= |s|
    ensures t == TurnAt(s, p)
  {
    TurnIs(s, p);
    if At(s, p) == 'r' || At(s, p) == '-' {
      return Triples;
    }
    var affectedBits, q := Letters(s, p, InWho, WhoBits);
    if affectedBits == {} {
      affectedBits := ALL;
    }
    if !IsOp(At(s, q)) {
      return BadOperator;
    }
    var chMode, e := Letters(s, q + 1, InPerms, PermBits);
    if At(s, e) != NUL && At(s, e) != ',' {
      return BadChange;
    }
    return Parsed(Clause(affectedBits, At(s, q), chMode), e);
  }

  // The switch of step 4 of mode_munch.
  method ChangeMode(mode: Mode, op: char, bits: Mode) returns (m: Mode)
    ensures m == Change(mode, op, bits)
  {
    if op == '+' {
      m := mode + bits;
    } else if op == '-' {
      m := mode - bits;
    } else {
      m := bits;
    }
  }

  // Step 4 of mode_munch: a bit changes only if a permission letter and a who letter of the clause select it,
  // or if '=' replaces the mode; without permission letters nothing changes.
  method ApplyClause(mode: Mode, c: Clause) returns (m: Mode)
    ensures m == Apply(mode, c)
    ensures c.perms == {} ==> m == mode
    ensures forall b: nat :: b in c.perms && b in c.who ==> (b in m <==> c.op != '-')
    ensures forall b: nat :: c.perms != {} && !(b in c.perms && b in c.who) ==>
      (b in m <==> b in mode && (c.op == '+' || c.op == '-'))
  {
    m := mode;
    if c.perms != {} {
      m := ChangeMode(m, c.op, c.perms * c.who);
    }
  }

  // mode_munch
  method ModeMunch(mode: Mode, s: string) returns (r: Outcome)
    ensures r == Munch(mode, s, 0)
  {
    ghost var result := Munch(mode, s, 0);
    var m, p: nat, doneFlag := mode, 0, false;
    while !doneFlag
      invariant !doneFlag ==> p <= |s| && Munch(m, s, p) == result
      invariant doneFlag ==> Done(0, m) == result
      decreases !doneFlag, |s| - p
    {
      var t := ParseTurn(s, p);
      match t {
        case Triples =>
          r := RwxRwxRwx(m, s, p);
          return;
        case BadOperator => return Done(-1, m);
        case BadChange => return Done(-2, m);
        case Parsed(c, e) =>
          if At(s, e) != ',' {
            doneFlag := true;
          }
          p := e + 1;
          m := ApplyClause(m, c);
      }
    }
    return Done(0, m);
  }

  // The fold of clauses.

  // The clauses fully parsed from p on, and the place where parsing stopped: the end of the last clause if
  // that is all there is, else where the turn that is no clause begins.
  ghost function Clauses(s: string, p: nat): (r: (seq<Clause>, nat, bool))
    requires p <= |s|
    ensures r.1 <= |s|
    decreases |s| - p
  {
    match TurnAt(s, p)
    case Parsed(c, e) =>
      if At(s, e) == ',' then
        var rest := Clauses(s, e + 1);
        ([c] + rest.0, rest.1, rest.2)
      else ([c], e, true)
    case _ => ([], p, false)
  }

  // What happens behind a clause that ends at e.
  ghost function Rest(m: Mode, s: string, e: nat): Outcome
    requires e <= |s|
  {
    if At(s, e) == ',' then Munch(m, s, e + 1) else Done(0, m)
  }

  // One turn of Munch.
  lemma MunchTurn(m: Mode, s: string, p: nat, t: Turn)
    requires p <= |s| && t == TurnAt(s, p)
    ensures t.Triples? ==> Munch(m, s, p) == Rwx(m, s, p)
    ensures t.BadOperator? ==> Munch(m, s, p) == Done(-1, m)
    ensures t.BadChange? ==> Munch(m, s, p) == Done(-2, m)
    ensures t.Parsed? ==> Munch(m, s, p) == Rest(Apply(m, t.clause), s, t.end)
  {
  }

  // One turn of Clauses.
  lemma ClausesTurn(s: string, p: nat, t: Turn)
    requires p <= |s| && t == TurnAt(s, p)
    ensures !t.Parsed? ==> Clauses(s, p) == ([], p, false)
    ensures t.Parsed? && At(s, t.end) != ',' ==> Clauses(s, p) == ([t.clause], t.end, true)
    ensures t.Parsed? && At(s, t.end) == ',' ==>
      var rest := Clauses(s, t.end + 1); Clauses(s, p) == ([t.clause] + rest.0, rest.1, rest.2)
  {
  }

  lemma FoldFirst(m: Mode, c: Clause, cs: seq<Clause>)
    ensures Fold(m, [c] + cs) == Fold(Apply(m, c), cs)
  {
    assert ([c] + cs)[1..] == cs;
  }

  // One turn of Fold over Clauses.
  lemma FoldTurn(m: Mode, s: string, p: nat, t: Turn)
    requires p <= |s| && t == TurnAt(s, p) && t.Parsed?
    ensures Fold(m, Clauses(s, p).0) ==
            if At(s, t.end) == ',' then Fold(Apply(m, t.clause), Clauses(s, t.end + 1).0) else Apply(m, t.clause)
  {
    ClausesTurn(s, p, t);
    if At(s, t.end) == ',' {
      FoldFirst(m, t.clause, Clauses(s, t.end + 1).0);
    } else {
      FoldFirst(m, t.clause, []);
      assert [t.clause] + [] == [t.clause];
    }
  }

  // Parsing stops before the end only where no clause stands.
  lemma {:induction false} ClausesStop(s: string, p: nat)
    requires p <= |s|
    ensures !Clauses(s, p).2 ==> !TurnAt(s, Clauses(s, p).1).Parsed?
    decreases |s| - p
  {
    var t := TurnAt(s, p);
    ClausesTurn(s, p, t);
    if t.Parsed? && At(s, t.end) == ',' {
      ClausesStop(s, t.end + 1);
    }
  }

  // mode_munch is the left fold of the clauses it has parsed, followed by what stops it: on an error, and
  // before an rwxrwxrwx string, the mode is that of the clauses before it.
  lemma {:induction false} MunchIsFold(m: Mode, s: string, p: nat)
    requires p <= |s|
    ensures Munch(m, s, p) ==
            if Clauses(s, p).2 then Done(0, Fold(m, Clauses(s, p).0))
            else Munch(Fold(m, Clauses(s, p).0), s, Clauses(s, p).1)
    decreases |s| - p
  {
    var t := TurnAt(s, p);
    ClausesTurn(s, p, t);
    if t.Parsed? {
      MunchTurn(m, s, p, t);
      FoldTurn(m, s, p, t);
      if At(s, t.end) == ',' {
        MunchIsFold(Apply(m, t.clause), s, t.end + 1);
      }
    }
  }

  // An rwxrwxrwx string fails with -4 and leaves the mode alone, or succeeds.
  lemma {:induction false} RwxCode(m: Mode, t: Mode, s: string, p: nat, count: nat)
    requires count <= 9
    ensures var r := RwxFrom(m, t, s, p, count); r.Done? && r.code != 0 ==> r == Done(-4, m)
    decreases 9 - count
  {
    if count < 9 && p <= |s| && RwxTurn(t, At(s, p), count).Some? {
      RwxCode(m, RwxTurn(t, At(s, p), count).value, s, p + 1, count + 1);
    }
  }

  // Whatever the error, the mode left is the fold of the clauses fully parsed before it.
  lemma ErrorKeepsFold(m: Mode, s: string)
    ensures var r := Munch(m, s, 0);
      r.Done? && r.code != 0 ==> r.mode == Fold(m, Clauses(s, 0).0) && r.code in {-1, -2, -4}
  {
    MunchIsFold(m, s, 0);
    ClausesStop(s, 0);
    var m1 := Fold(m, Clauses(s, 0).0);
    RwxCode(m1, m1 - (SETUID + SETGID), s, Clauses(s, 0).1, 0);
  }

  // Reading past the end of the string.

  // From place p, an 's' stands only where an rwxrwxrwx string read from `count` on may have one.
  predicate SetIdsPlaced(s: string, p: nat, count: nat) {
    forall k | p <= k < |s| :: s[k] == 's' ==> k - p + count == 2 || k - p + count == 5
  }

  // rwxrwxrwx reads past the end exactly when more than one of its places is left over behind the string, and
  // no misplaced 's' stops it before.
  lemma {:induction false} RwxOverread(m: Mode, t: Mode, s: string, p: nat, count: nat)
    requires p <= |s| && count <= 9
    ensures RwxFrom(m, t, s, p, count).Overread? <==> |s| - p < 8 - count && SetIdsPlaced(s, p, count)
    decreases 9 - count
  {
    if count < 9 && p < |s| {
      var u := RwxTurn(t, s[p], count);
      if u.Some? {
        RwxOverread(m, u.value, s, p + 1, count + 1);
        assert SetIdsPlaced(s, p, count) <==> SetIdsPlaced(s, p + 1, count + 1);
      } else {
        assert s[p] == 's';
      }
    }
  }

  // mode_munch reads past the end exactly when its clauses lead to an rwxrwxrwx string of fewer than eight
  // letters without a misplaced 's'. In every other case it returns.
  lemma MunchOverread(m: Mode, s: string)
    ensures var q := Clauses(s, 0).1;
      Munch(m, s, 0).Overread? <==>
      !Clauses(s, 0).2 && (At(s, q) == 'r' || At(s, q) == '-') && |s| - q < 8 && SetIdsPlaced(s, q, 0)
  {
    var cs, q := Clauses(s, 0).0, Clauses(s, 0).1;
    MunchIsFold(m, s, 0);
    ClausesStop(s, 0);
    if !Clauses(s, 0).2 {
      var m1 := Fold(m, cs);
      TurnIs(s, q);
      MunchTurn(m1, s, q, TurnAt(s, q));
      RwxOverread(m1, m1 - (SETUID + SETGID), s, q, 0);
    }
  }

  // A short string does so.
  lemma ShortOverread(m: Mode)
    ensures Munch(m, "rw", 0) == Overread
  {
    TurnIs("rw", 0);
    MunchTurn(m, "rw", 0, Triples);
    RwxOverread(m, m - (SETUID + SETGID), "rw", 0, 0);
  }

  // What '+' and '-' may change.

  // A clause done twice is done once; '-' after '+' leaves the selected bits off and '+' after '-' leaves them
  // on, all others as they were; '=' forgets the mode it meets.
  lemma ClauseLaws(m: Mode, n: Mode, who: Mode, perms: Mode, op: char)
    requires IsOp(op) && perms != {}
    ensures Apply(Apply(m, Clause(who, op, perms)), Clause(who, op, perms)) == Apply(m, Clause(who, op, perms))
    ensures Apply(Apply(m, Clause(who, '+', perms)), Clause(who, '-', perms)) == m - perms * who
    ensures Apply(Apply(m, Clause(who, '-', perms)), Clause(who, '+', perms)) == m + perms * who
    ensures Apply(m, Clause(who, '=', perms)) == Apply(n, Clause(who, '=', perms)) <= who
  {
  }

  // A '+' or '-' clause leaves every bit outside its who mask alone.
  lemma ClauseKeeps(m: Mode, c: Clause)
    requires c.op == '+' || c.op == '-'
    ensures Apply(m, c) - c.who == m - c.who
  {
  }

  // The bits in some who mask of the clauses.
  function Affected(cs: seq<Clause>): Mode
    decreases |cs|
  {
    if cs == [] then {} else cs[0].who + Affected(cs[1..])
  }

  // A string of '+' and '-' clauses leaves every bit outside all of their who masks alone.
  lemma {:induction false} FoldKeeps(m: Mode, cs: seq<Clause>)
    requires forall c <- cs :: c.op == '+' || c.op == '-'
    ensures Fold(m, cs) - Affected(cs) == m - Affected(cs)
    decreases |cs|
  {
    if cs != [] {
      var m1, w := Apply(m, cs[0]), Affected(cs[1..]);
      assert cs[0] in cs;
      ClauseKeeps(m, cs[0]);
      FoldKeeps(m1, cs[1..]);
      assert Fold(m, cs) - (cs[0].who + w) == (Fold(m1, cs[1..]) - w) - cs[0].who;
      assert m - (cs[0].who + w) == (m - cs[0].who) - w;
      assert (m1 - w) - cs[0].who == (m1 - cs[0].who) - w;
    }
  }

  lemma MunchKeeps(m: Mode, s: string)
    requires Clauses(s, 0).2 && forall c <- Clauses(s, 0).0 :: c.op == '+' || c.op == '-'
    ensures Munch(m, s, 0).Done? && Munch(m, s, 0).code == 0
    ensures Munch(m, s, 0).mode - Affected(Clauses(s, 0).0) == m - Affected(Clauses(s, 0).0)
  {
    MunchIsFold(m, s, 0);
    FoldKeeps(m, Clauses(s, 0).0);
  }

  // Composition: s1 + "," + s2 is s2 applied to what s1 leaves.

  lemma {:induction false} RunEndBefore(s1: string, t: string, p: nat, inRun: char -> bool)
    requires p <= |s1| && t != [] && !inRun(t[0])
    ensures RunEnd(s1 + t, p, inRun) == RunEnd(s1, p, inRun)
    decreases |s1| - p
  {
    if p < |s1| && inRun(s1[p]) {
      RunEndBefore(s1, t, p + 1, inRun);
    }
  }

  lemma {:induction false} BitsBefore(s1: string, t: string, p: nat, q: nat, bits: char -> Mode, sum: Mode)
    requires p <= q <= |s1|
    ensures Bits(s1 + t, p, q, bits, sum) == Bits(s1, p, q, bits, sum)
    decreases q - p
  {
    if p < q {
      BitsBefore(s1, t, p + 1, q, bits, sum + bits(s1[p]));
    }
  }

  // A clause that ends at NUL is read the same when a comma stands there instead.
  lemma TurnBefore(s1: string, t: string, p: nat)
    requires p <= |s1| && t != [] && t[0] == ','
    requires TurnAt(s1, p).Parsed?
    ensures TurnAt(s1 + t, p) == TurnAt(s1, p)
  {
    TurnIs(s1 + t, p);
    TurnIs(s1, p);
    RunEndBefore(s1, t, p, InWho);
    var q := RunEnd(s1, p, InWho);
    RunEndBefore(s1, t, q + 1, InPerms);
    BitsBefore(s1, t, p, q, WhoBits, {});
    BitsBefore(s1, t, q + 1, RunEnd(s1, q + 1, InPerms), PermBits, {});
  }

  lemma {:induction false} RunEndBehind(a: string, b: string, k: nat, inRun: char -> bool)
    requires k <= |b|
    ensures RunEnd(a + b, |a| + k, inRun) == |a| + RunEnd(b, k, inRun)
    decreases |b| - k
  {
    if k < |b| && inRun(b[k]) {
      RunEndBehind(a, b, k + 1, inRun);
    }
  }

  lemma {:induction false} BitsBehind(a: string, b: string, p: nat, q: nat, bits: char -> Mode, sum: Mode)
    requires p <= q <= |b|
    ensures Bits(a + b, |a| + p, |a| + q, bits, sum) == Bits(b, p, q, bits, sum)
    decreases q - p
  {
    if p < q {
      BitsBehind(a, b, p + 1, q, bits, sum + bits(b[p]));
    }
  }

  function Shifted(t: Turn, d: nat): Turn {
    if t.Parsed? then Parsed(t.clause, t.end + d) else t
  }

  lemma AtBehind(a: string, b: string, k: nat)
    ensures At(a + b, |a| + k) == At(b, k)
  {
  }

  lemma ClauseBehind(a: string, b: string, k: nat, q: nat, e: nat)
    requires k <= q < |b| && q + 1 <= e <= |b|
    ensures ReadClause(a + b, |a| + k, |a| + q, |a| + e) == Shifted(ReadClause(b, k, q, e), |a|)
  {
    AtBehind(a, b, e);
    BitsBehind(a, b, k, q, WhoBits, {});
    BitsBehind(a, b, q + 1, e, PermBits, {});
  }

  lemma TurnBehind(a: string, b: string, k: nat)
    requires k <= |b|
    ensures TurnAt(a + b, |a| + k) == Shifted(TurnAt(b, k), |a|)
  {
    TurnIs(a + b, |a| + k);
    TurnIs(b, k);
    RunEndBehind(a, b, k, InWho);
    var q := RunEnd(b, k, InWho);
    AtBehind(a, b, k);
    AtBehind(a, b, q);
    if At(b, k) != 'r' && At(b, k) != '-' && IsOp(At(b, q)) {
      RunEndBehind(a, b, q + 1, InPerms);
      ClauseBehind(a, b, k, q, RunEnd(b, q + 1, InPerms));
      assert ReadTurn(a + b, |a| + k) == Shifted(ReadTurn(b, k), |a|);
    } else {
      assert ReadTurn(a + b, |a| + k) == Shifted(ReadTurn(b, k), |a|);
    }
  }

  lemma {:induction false} RwxBehind(m: Mode, t: Mode, a: string, b: string, k: nat, count: nat)
    requires count <= 9
    ensures RwxFrom(m, t, a + b, |a| + k, count) == RwxFrom(m, t, b, k, count)
    decreases 9 - count
  {
    if count < 9 && k <= |b| {
      AtBehind(a, b, k);
      var u := RwxTurn(t, At(b, k), count);
      RwxStep(m, t, b, k, count, u);
      RwxStep(m, t, a + b, |a| + k, count, u);
      if u.Some? {
        RwxBehind(m, u.value, a, b, k + 1, count + 1);
        assert RwxFrom(m, t, a + b, |a| + k, count) == RwxFrom(m, t, b, k, count);
      } else {
        assert RwxFrom(m, t, a + b, |a| + k, count) == RwxFrom(m, t, b, k, count);
      }
    }
  }

  lemma RwxStep(m: Mode, t: Mode, s: string, p: nat, count: nat, u: Option<Mode>)
    requires count < 9 && p <= |s| && u == RwxTurn(t, At(s, p), count)
    ensures RwxFrom(m, t, s, p, count) ==
            if u.None? then Done(-4, m) else RwxFrom(m, u.value, s, p + 1, count + 1)
  {
  }

  // What stands before the place where parsing begins does not matter.
  lemma {:induction false} MunchBehind(m: Mode, a: string, b: string, k: nat)
    requires k <= |b|
    ensures Munch(m, a + b, |a| + k) == Munch(m, b, k)
    decreases |b| - k, 1
  {
    TurnBehind(a, b, k);
    var t, s, p := TurnAt(b, k), a + b, |a| + k;
    MunchTurn(m, b, k, t);
    MunchTurn(m, s, p, Shifted(t, |a|));
    if t.Parsed? {
      RestBehind(Apply(m, t.clause), a, b, t.end, k);
      assert Munch(m, s, p) == Munch(m, b, k);
    } else if t.Triples? {
      RwxBehind(m, m - (SETUID + SETGID), a, b, k, 0);
      assert Munch(m, s, p) == Munch(m, b, k);
    } else {
      assert Munch(m, s, p) == Munch(m, b, k);
    }
  }

  lemma {:induction false} RestBehind(m: Mode, a: string, b: string, e: nat, k: nat)
    requires k < e <= |b|
    ensures Rest(m, a + b, |a| + e) == Rest(m, b, e)
    decreases |b| - k, 0
  {
    AtBehind(a, b, e);
    if At(b, e) == ',' {
      MunchBehind(m, a, b, e + 1);
      SameRest(m, a + b, |a| + e, b, e, Munch(m, b, e + 1));
    } else {
      RestEnds(m, a + b, |a| + e);
      RestEnds(m, b, e);
    }
  }

  lemma SameRest(m: Mode, s: string, e: nat, t: string, f: nat, r: Outcome)
    requires e <= |s| && f <= |t| && At(s, e) == ',' && At(t, f) == ','
    requires Munch(m, s, e + 1) == r && Munch(m, t, f + 1) == r
    ensures Rest(m, s, e) == Rest(m, t, f)
  {
  }

  lemma RestEnds(m: Mode, s: string, e: nat)
    requires e <= |s| && At(s, e) != ','
    ensures Rest(m, s, e) == Done(0, m)
  {
  }

  // A string whose turns are all clauses, up to its end.
  ghost predicate Symbolic(s: string) {
    Clauses(s, 0).2 && Clauses(s, 0).1 == |s|
  }

  // Behind the last clause of s1 stands the comma, and then s2.
  lemma RestOverComma(m: Mode, s1: string, s2: string)
    ensures Rest(m, s1 + ("," + s2), |s1|) == Munch(m, s2, 0)
  {
    MunchBehind(m, s1 + ",", s2, 0);
    assert s1 + "," + s2 == s1 + ("," + s2);
    assert At(s1 + ("," + s2), |s1|) == ',';
  }

  lemma {:induction false} MunchOver(m: Mode, s1: string, s2: string, p: nat, m1: Mode)
    requires p <= |s1| && Clauses(s1, p).2 && Clauses(s1, p).1 == |s1| && m1 == Fold(m, Clauses(s1, p).0)
    ensures Munch(m, s1 + ("," + s2), p) == Munch(m1, s2, 0)
    decreases |s1| - p
  {
    var t, s := TurnAt(s1, p), s1 + ("," + s2);
    ClausesTurn(s1, p, t);
    TurnBefore(s1, "," + s2, p);
    MunchTurn(m, s, p, t);
    FoldTurn(m, s1, p, t);
    if At(s1, t.end) == ',' {
      MunchOver(Apply(m, t.clause), s1, s2, t.end + 1, m1);
      assert Rest(Apply(m, t.clause), s, t.end) == Munch(Apply(m, t.clause), s, t.end + 1);
      assert Munch(m, s, p) == Munch(m1, s2, 0);
    } else {
      RestOverComma(m1, s1, s2);
      assert Munch(m, s, p) == Munch(m1, s2, 0);
    }
  }

  lemma MunchComposes(m: Mode, s1: string, s2: string)
    requires Symbolic(s1)
    ensures Munch(m, s1, 0).Done? && Munch(m, s1, 0).code == 0
    ensures Munch(m, s1 + "," + s2, 0) == Munch(Munch(m, s1, 0).mode, s2, 0)
  {
    MunchIsFold(m, s1, 0);
    MunchOver(m, s1, s2, 0, Fold(m, Clauses(s1, 0).0));
    assert s1 + "," + s2 == s1 + ("," + s2);
  }

  // modechopper

  // The letter that stands for a mode at one place of an rwxrwxrwx string.
  function ChopChar(m: Mode, i: nat): char
    requires i < 9
  {
    if i == 2 && 11 in m then (if 6 in m then 's' else 'S')
    else if i == 5 && 10 in m then (if 3 in m then 's' else 'S')
    else if 8 - i in m then SelChar(i)
    else '-'
  }

  function Chopped(m: Mode): string {
    seq(9, i requires 0 <= i < 9 => ChopChar(m, i))
  }

  method ModeChopper(mode: Mode, p: array<char>)
    requires p.Length >= 10
    modifies p
    ensures p[..9] == Chopped(mode) && p[9] == NUL
    ensures forall i :: 0 <= i < 9 && i != 2 && i != 5 ==> p[i] == if 8 - i in mode then "rwxrwxrwx"[i] else '-'
    ensures p[2] == if 11 in mode then (if 6 in mode then 's' else 'S') else if 6 in mode then 'x' else '-'
    ensures p[5] == if 10 in mode then (if 3 in mode then 's' else 'S') else if 3 in mode then 'x' else '-'
    ensures p[10..] == old(p[10..])
  {
    var count := 0;
    while count < 9
      invariant 0 <= count <= 9
      invariant forall i | 0 <= i < count :: p[i] == if 8 - i in mode then SelChar(i) else '-'
      invariant p[10..] == old(p[10..])
    {
      assert mode * SelBits(count) == if 8 - count in mode then {8 - count} else {};
      if mode * SelBits(count) != {} {
        p[count] := SelChar(count);
      } else {
        p[count] := '-';
      }
      count := count + 1;
    }
    p[count] := NUL;
    if 11 in mode {
      p[2] := if 6 in mode then 's' else 'S';
    }
    if 10 in mode {
      p[5] := if 3 in mode then 's' else 'S';
    }
  }

  const CHOPPED: Mode := {0, 1, 2, 3, 4, 5, 6, 7, 8, 10, 11}  // 06777

  // A set-id bit is printed as 's' only beside its execute bit.
  predicate Executable(m: Mode) {
    (11 in m ==> 6 in m) && (10 in m ==> 3 in m)
  }

  // Whether bit b is one when an rwxrwxrwx loop that stands at `count`, with t so far, is through with
  // the string for m.
  predicate Reread(m: Mode, t: Mode, count: nat, b: nat) {
    if b + count <= 8 then
      (if (b == 6 && 11 in m && 6 !in m) || (b == 3 && 10 in m && 3 !in m) then b in t else b in m)
    else if b == 11 then b in t || (count <= 2 && 11 in m && 6 in m)
    else if b == 10 then b in t || (count <= 5 && 10 in m && 3 in m)
    else b in t
  }

  lemma {:induction false} RwxReads(base: Mode, m: Mode, t: Mode, count: nat)
    requires count <= 9
    ensures var r := RwxFrom(base, t, Chopped(m), count, count);
      r.Done? && r.code == 0 && forall b: nat :: b in r.mode <==> Reread(m, t, count, b)
    decreases 9 - count
  {
    if count < 9 {
      var u := RwxTurn(t, ChopChar(m, count), count).value;
      RwxReads(base, m, u, count + 1);
      forall b: nat ensures Reread(m, u, count + 1, b) <==> Reread(m, t, count, b) {
      }
    }
  }

  lemma ChoppedIsTriples(m: Mode)
    ensures TurnAt(Chopped(m), 0) == Triples
  {
    TurnIs(Chopped(m), 0);
    assert At(Chopped(m), 0) == ChopChar(m, 0);
  }

  // A result that reads as Reread says is the wanted one exactly when each set-id bit has its execute bit.
  lemma RereadIs(base: Mode, m: Mode, r: Mode)
    requires forall b: nat :: b in r <==> Reread(m, base - (SETUID + SETGID), 0, b)
    ensures r == (base - CHOPPED) + (m * CHOPPED) <==> Executable(m)
  {
    if Executable(m) {
      forall b: nat ensures b in r <==> b in (base - CHOPPED) + (m * CHOPPED) {
      }
    } else {
      assert 11 in r <==> Reread(m, base - (SETUID + SETGID), 0, 11);
      assert 10 in r <==> Reread(m, base - (SETUID + SETGID), 0, 10);
    }
  }

  // Munching what modechopper prints restores the permission and set-id bits, and keeps the other bits of
  // the base, exactly when each set-id bit has its execute bit.
  lemma MunchChopped(base: Mode, m: Mode)
    ensures Munch(base, Chopped(m), 0) == Done(0, (base - CHOPPED) + (m * CHOPPED)) <==> Executable(m)
  {
    ChoppedIsTriples(m);
    RwxReads(base, m, base - (SETUID + SETGID), 0);
    RereadIs(base, m, Rwx(base, Chopped(m), 0).mode);
  }

  // The letters.

  // Whose permission the i-th place of an rwxrwxrwx string is.
  function WhoChar(i: nat): char
    requires i < 9
  {
    if i < 3 then 'u' else if i < 6 then 'g' else 'o'
  }

  // The symbolic letters select the same bits as the places of an rwxrwxrwx string.
  lemma LettersAgree(i: nat)
    requires i < 9
    ensures WhoBits(WhoChar(i)) * PermBits(SelChar(i)) == SelBits(i)
    ensures WhoBits('u') * PermBits('s') == SETUID && WhoBits('g') * PermBits('s') == SETGID
    ensures WhoBits('o') * PermBits('s') == {} && PermBits(SelChar(i)) != {} && WhoBits(WhoChar(i)) != {}
  {
    assert 8 - i in WhoBits(WhoChar(i)) && 8 - i in PermBits(SelChar(i));
  }

  lemma OneLetterBits(s: string, p: nat, bits: char -> Mode)
    requires p < |s|
    ensures Bits(s, p, p + 1, bits, {}) == bits(s[p])
  {
    assert Bits(s, p, p + 1, bits, {}) == Bits(s, p + 1, p + 1, bits, {} + bits(s[p]));
  }

  // One letter for whom, an operator, and one permission letter change, clear or set exactly that bit.
  lemma LetterMunch(m: Mode, i: nat, op: char)
    requires i < 9 && IsOp(op)
    ensures Munch(m, [WhoChar(i), op, SelChar(i)], 0) ==
            Done(0, if op == '+' then m + SelBits(i) else if op == '-' then m - SelBits(i) else SelBits(i))
  {
    var s := [WhoChar(i), op, SelChar(i)];
    LettersAgree(i);
    OneLetterBits(s, 0, WhoBits);
    OneLetterBits(s, 2, PermBits);
    assert RunEnd(s, 1, InWho) == 1 && RunEnd(s, 0, InWho) == 1;
    assert RunEnd(s, 3, InPerms) == 3 && RunEnd(s, 2, InPerms) == 3;
    var c := Clause(WhoBits(WhoChar(i)), op, PermBits(SelChar(i)));
    TurnIs(s, 0);
    assert TurnAt(s, 0) == Parsed(c, 3);
    assert c.perms * c.who == SelBits(i);
  }

  // What strings mean, letter by letter.

  predicate Named(who: string) {
    'u' in who || 'g' in who || 'o' in who || 'a' in who
  }

  // The bits that some who letter selects; without one, all of them.
  predicate WhoSelects(who: string, b: nat) {
    || ((!Named(who) || 'a' in who) && b <= 11)
    || ('u' in who && b in {11, 8, 7, 6}) || ('g' in who && b in {10, 5, 4, 3}) || ('o' in who && b in {9, 2, 1, 0})
  }

  // The bits that some permission letter selects.
  predicate PermSelects(perms: string, b: nat) {
    || ('r' in perms && b in {8, 5, 2}) || ('w' in perms && b in {7, 4, 1})
    || ('x' in perms && b in {6, 3, 0}) || ('s' in perms && b in {11, 10})
  }

  // 'a' is the same as "ugo", and as no letter at all.
  lemma AllIsUgo(who: string, b: nat)
    requires 'a' in who || ('u' in who && 'g' in who && 'o' in who) || !Named(who)
    ensures WhoSelects(who, b) <==> b <= 11
  {
  }

  // A clause as it is written: who letters, an operator, permission letters, each possibly among blanks. It does
  // not begin with '-', which would begin an rwxrwxrwx string.
  datatype Written = Written(who: string, op: char, perms: string) {
    predicate Ok() {
      && (forall c <- who :: c in "ugoa ") && op in "+-=" && (forall c <- perms :: c in "rwxs ")
      && (who == "" ==> op != '-')
    }

    function Text(): string {
      who + [op] + perms
    }

    // Whether bit b is one behind the clause, if `was` is whether it was so before.
    predicate Leaves(was: bool, b: nat) {
      if forall c <- perms :: c == ' ' then was
      else if WhoSelects(who, b) && PermSelects(perms, b) then op != '-'
      else was && op != '='
    }
  }

  lemma {:induction false} RunEndIs(s: string, p: nat, q: nat, inRun: char -> bool)
    requires p <= q <= |s| && (forall k :: p <= k < q ==> inRun(s[k])) && (q < |s| ==> !inRun(s[q]))
    ensures RunEnd(s, p, inRun) == q
    decreases q - p
  {
    if p < q {
      RunEndIs(s, p + 1, q, inRun);
    }
  }

  // The bits of a run are those of its letters.
  lemma {:induction false} BitsOfLetters(s: string, p: nat, q: nat, bits: char -> Mode, sum: Mode, b: nat)
    requires p <= q <= |s|
    ensures b in Bits(s, p, q, bits, sum) <==> b in sum || exists c <- s[p..q] :: b in bits(c)
    decreases q - p
  {
    if p < q {
      BitsOfLetters(s, p + 1, q, bits, sum + bits(s[p]), b);
      assert s[p..q] == [s[p]] + s[p + 1..q];
    }
  }

  lemma WhoBitsOf(s: string, q: nat, b: nat)
    requires q <= |s| && forall c <- s[..q] :: c in "ugoa "
    ensures var w := Bits(s, 0, q, WhoBits, {});
      && (b in (if w == {} then ALL else w) <==> WhoSelects(s[..q], b))
  {
    var w, who := Bits(s, 0, q, WhoBits, {}), s[..q];
    assert s[0..q] == who;
    BitsOfLetters(s, 0, q, WhoBits, {}, b);
    if Named(who) {
      var c :| c in who && c in "ugoa" && (c == 'a' || 'a' !in who);
      var k := if c == 'u' then 6 else if c == 'g' then 3 else 0;
      BitsOfLetters(s, 0, q, WhoBits, {}, k);
      assert k in WhoBits(c);
    } else {
      forall k | k in w ensures false {
        BitsOfLetters(s, 0, q, WhoBits, {}, k);
      }
    }
  }

  lemma PermBitsOf(s: string, p: nat, q: nat, b: nat)
    requires p <= q <= |s| && forall c <- s[p..q] :: c in "rwxs "
    ensures b in Bits(s, p, q, PermBits, {}) <==> PermSelects(s[p..q], b)
    ensures Bits(s, p, q, PermBits, {}) == {} <==> forall c <- s[p..q] :: c == ' '
  {
    var w, perms := Bits(s, p, q, PermBits, {}), s[p..q];
    BitsOfLetters(s, p, q, PermBits, {}, b);
    if c :| c in perms && c != ' ' {
      var k := if c == 'r' then 8 else if c == 'w' then 7 else if c == 'x' then 6 else 11;
      BitsOfLetters(s, p, q, PermBits, {}, k);
      assert k in PermBits(c);
    } else {
      forall k | k in w ensures false {
        BitsOfLetters(s, p, q, PermBits, {}, k);
      }
    }
  }

  // Where the parts of a written clause stand.
  lemma PartsAre(w: Written, rest: string)
    ensures var s, q, e := w.Text() + rest, |w.who|, |w.Text()|;
      && q < e <= |s| && s[..q] == w.who && s[q] == w.op && s[q + 1..e] == w.perms && s[e..] == rest
  {
  }

  lemma RunOf(s: string, p: nat, q: nat, inRun: char -> bool)
    requires p <= q <= |s| && (forall c <- s[p..q] :: inRun(c)) && (s[q..] == "" || !inRun(s[q..][0]))
    ensures RunEnd(s, p, inRun) == q
  {
    assert forall k :: p <= k < q ==> s[k] == s[p..q][k - p];
    RunEndIs(s, p, q, inRun);
  }

  lemma PartsOf(w: Written, rest: string)
    requires w.Ok() && (rest == "" || rest[0] !in "rwxs ")
    ensures var s, q, e := w.Text() + rest, |w.who|, |w.Text()|;
      && q < e <= |s| && s[..q] == w.who && s[q] == w.op && s[q + 1..e] == w.perms
      && At(s, e) == (if rest == "" then NUL else rest[0])
      && RunEnd(s, 0, InWho) == q && RunEnd(s, q + 1, InPerms) == e
  {
    var s, q, e := w.Text() + rest, |w.who|, |w.Text()|;
    PartsAre(w, rest);
    assert s[0..q] == w.who && s[q..][0] == w.op;
    WrittenRuns(w, rest);
    RunOf(s, 0, q, InWho);
    RunOf(s, q + 1, e, InPerms);
  }

  // The letters of a written clause are those the two loops pass over.
  lemma WrittenRuns(w: Written, rest: string)
    requires w.Ok() && (rest == "" || rest[0] !in "rwxs ")
    ensures (forall c <- w.who :: InWho(c)) && !InWho(w.op)
    ensures (forall c <- w.perms :: InPerms(c)) && (rest == "" || !InPerms(rest[0]))
  {
  }

  // The clause does what its letters say.
  lemma WrittenLeaves(w: Written, s: string, q: nat, e: nat, c: Clause, m: Mode, b: nat)
    requires w.Ok() && q < e <= |s| && s[..q] == w.who && s[q] == w.op && s[q + 1..e] == w.perms
    requires var who := Bits(s, 0, q, WhoBits, {});
      c == Clause(if who == {} then ALL else who, s[q], Bits(s, q + 1, e, PermBits, {}))
    ensures b in Apply(m, c) <==> w.Leaves(b in m, b)
  {
    WhoBitsOf(s, q, b);
    PermBitsOf(s, q + 1, e, b);
    assert w.op == '+' || w.op == '-' || w.op == '=';
  }

  ghost predicate Does(w: Written, c: Clause) {
    forall m: Mode, b: nat :: b in Apply(m, c) <==> w.Leaves(b in m, b)
  }

  // What is read at the beginning of a string that begins with a clause.
  lemma TurnOfWritten(w: Written, rest: string)
    requires w.Ok() && (rest == "" || rest[0] !in "rwxs ")
    ensures var t := TurnAt(w.Text() + rest, 0);
      if rest == "" || rest[0] == NUL || rest[0] == ',' then t.Parsed? && t.end == |w.Text()| && Does(w, t.clause)
      else t == BadChange
  {
    var s, q, e := w.Text() + rest, |w.who|, |w.Text()|;
    TurnIs(s, 0);
    PartsOf(w, rest);
    assert s[0] == if w.who == "" then w.op else w.who[0];
    assert ReadTurn(s, 0) == ReadClause(s, 0, q, e);
    if rest == "" || rest[0] == NUL || rest[0] == ',' {
      var c := ReadClause(s, 0, q, e).clause;
      forall m: Mode, b: nat ensures b in Apply(m, c) <==> w.Leaves(b in m, b) {
        WrittenLeaves(w, s, q, e, c, m, b);
      }
    }
  }

  // A string of one clause changes exactly the bits that its letters select.
  lemma ClauseMunch(m: Mode, w: Written)
    requires w.Ok()
    ensures Symbolic(w.Text())
    ensures var r := Munch(m, w.Text(), 0); r.Done? && r.code == 0 && forall b: nat :: b in r.mode <==> w.Leaves(b in m, b)
  {
    var s := w.Text();
    assert s + "" == s;
    TurnOfWritten(w, "");
    ClausesTurn(s, 0, TurnAt(s, 0));
    MunchTurn(m, s, 0, TurnAt(s, 0));
  }

  // Clauses with commas between them.
  function Commas(ws: seq<Written>): string
    requires ws != []
  {
    if |ws| == 1 then ws[0].Text() else ws[0].Text() + "," + Commas(ws[1..])
  }

  predicate LeavesAll(ws: seq<Written>, was: bool, b: nat)
    decreases |ws|
  {
    if ws == [] then was else LeavesAll(ws[1..], ws[0].Leaves(was, b), b)
  }

  // A string of clauses does what they say, one after the other.
  lemma {:induction false} ClausesMunch(m: Mode, ws: seq<Written>)
    requires ws != [] && forall w <- ws :: w.Ok()
    ensures var r := Munch(m, Commas(ws), 0);
      r.Done? && r.code == 0 && forall b: nat :: b in r.mode <==> LeavesAll(ws, b in m, b)
    decreases |ws|
  {
    ClauseMunch(m, ws[0]);
    var m1 := Munch(m, ws[0].Text(), 0).mode;
    if |ws| == 1 {
      assert ws[1..] == [];
    } else {
      MunchComposes(m, ws[0].Text(), Commas(ws[1..]));
      ClausesMunch(m1, ws[1..]);
    }
    forall b: nat ensures LeavesAll(ws, b in m, b) <==> LeavesAll(ws[1..], b in m1, b) {
    }
  }

  // Without an operator behind the who letters the mode stays, and the answer is -1.
  lemma NoOperatorMunch(m: Mode, who: string, rest: string)
    requires (forall c <- who :: c in "ugoa ") && (rest == "" || rest[0] !in "ugoa +-=")
    requires who != "" || rest == "" || rest[0] != 'r'
    ensures Munch(m, who + rest, 0) == Done(-1, m)
  {
    var s := who + rest;
    TurnIs(s, 0);
    assert forall k :: 0 <= k < |who| ==> s[k] in who;
    RunEndIs(s, 0, |who|, InWho);
    MunchTurn(m, s, 0, BadOperator);
  }

  // With something else than a comma behind the permission letters the mode stays, and the answer is -2.
  lemma BadChangeMunch(m: Mode, w: Written, rest: string)
    requires w.Ok() && rest != "" && rest[0] !in "rwxs ," && rest[0] != NUL
    ensures Munch(m, w.Text() + rest, 0) == Done(-2, m)
  {
    TurnOfWritten(w, rest);
    MunchTurn(m, w.Text() + rest, 0, BadChange);
  }

  // An rwxrwxrwx string, place by place.

  function Place(s: string, start: nat, k: nat): char {
    At(s, start + k)
  }

  // Whether bit b is one when the places from `count` on have been read, with t so far.
  predicate PlacedBit(t: Mode, s: string, start: nat, count: nat, b: nat) {
    if b <= 8 - count then
      var c := Place(s, start, 8 - b);
      c == "rwxrwxrwx"[8 - b] || c == 's' || (c != '-' && b in t)
    else if b == 11 then b in t || (count <= 2 && Place(s, start, 2) == 's')
    else if b == 10 then b in t || (count <= 5 && Place(s, start, 5) == 's')
    else b in t
  }

  // Of the places from `count` on, only 2 and 5 hold an 's'.
  predicate SetIdsFit(s: string, start: nat, count: nat) {
    forall k: nat | count <= k < 9 && k != 2 && k != 5 :: Place(s, start, k) != 's'
  }

  lemma PlacedStep(t: Mode, u: Mode, s: string, start: nat, count: nat, b: nat)
    requires count < 9 && RwxTurn(t, Place(s, start, count), count) == Some(u)
    ensures PlacedBit(u, s, start, count + 1, b) <==> PlacedBit(t, s, start, count, b)
  {
    assert SelChar(count) == "rwxrwxrwx"[count];
    if b == 8 - count {
      assert PlacedBit(u, s, start, count + 1, b) <==> b in u;
    }
  }

  // An 's' anywhere but at the places 2 and 5 is an error; else each place decides its own bit, and an 's' there
  // also the set-id bit. Any other letter leaves the bit of its place alone.
  lemma {:induction false} RwxPlaces(m: Mode, t: Mode, s: string, start: nat, count: nat)
    requires count <= 9 && start + 8 <= |s|
    ensures var r := RwxFrom(m, t, s, start + count, count);
      if SetIdsFit(s, start, count)
      then r.Done? && r.code == 0 && forall b: nat :: b in r.mode <==> PlacedBit(t, s, start, count, b)
      else r == Done(-4, m)
    decreases 9 - count
  {
    if count < 9 {
      var u := RwxTurn(t, Place(s, start, count), count);
      RwxStep(m, t, s, start + count, count, u);
      if u.Some? {
        RwxPlaces(m, u.value, s, start, count + 1);
        forall b: nat ensures PlacedBit(u.value, s, start, count + 1, b) <==> PlacedBit(t, s, start, count, b) {
          PlacedStep(t, u.value, s, start, count, b);
        }
        assert SetIdsFit(s, start, count) <==> SetIdsFit(s, start, count + 1);
      } else {
        assert Place(s, start, count) == 's';
      }
    }
  }

  // The same of a whole string of nine places.
  lemma MunchPlaces(m: Mode, s: string)
    requires 8 <= |s| && (s[0] == 'r' || s[0] == '-')
    ensures var r := Munch(m, s, 0);
      if forall k | 0 <= k < 9 && k != 2 && k != 5 :: At(s, k) != 's' then
        && r.Done? && r.code == 0
        && (forall k | 0 <= k < 9 :: 8 - k in r.mode <==>
              At(s, k) == "rwxrwxrwx"[k] || At(s, k) == 's' || (At(s, k) != '-' && 8 - k in m))
        && (11 in r.mode <==> s[2] == 's') && (10 in r.mode <==> s[5] == 's')
        && (forall b: nat | b > 8 && b != 10 && b != 11 :: b in r.mode <==> b in m)
      else r == Done(-4, m)
  {
    TurnIs(s, 0);
    MunchTurn(m, s, 0, Triples);
    var t := m - (SETUID + SETGID);
    RwxPlaces(m, t, s, 0, 0);
    var r := Munch(m, s, 0);
    assert forall k: nat :: Place(s, 0, k) == At(s, k);
    if SetIdsFit(s, 0, 0) {
      forall k | 0 <= k < 9
        ensures 8 - k in r.mode <==> At(s, k) == "rwxrwxrwx"[k] || At(s, k) == 's' || (At(s, k) != '-' && 8 - k in m)
      {
        assert 8 - k in r.mode <==> PlacedBit(t, s, 0, 0, 8 - k);
      }
    } else {
      var k: nat :| k < 9 && k != 2 && k != 5 && Place(s, 0, k) == 's';
      assert At(s, k) == 's';
    }
  }
}
