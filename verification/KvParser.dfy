/** The key/value text of cpp/kv_parser.cpp: four scanning loops that read `key=value;...`, and the printer
    whose last `;` is overwritten by NUL. */
module KvParser {
  import opened Basics

  // What each of the four scanning loops passes over.
  predicate BeforeKey(c: char) {
    c == ';' || c == ' '
  }

  predicate InKey(c: char) {
    c != NUL && c != ' ' && c != '='
  }

  predicate BeforeValue(c: char) {
    c == '=' || c == ' '
  }

  predicate InValue(c: char) {
    c != NUL && c != ' ' && c != ';'
  }

  // Where a scan from i stops.
  function Scan(s: string, i: nat, p: char -> bool): (j: nat)
    ensures i <= j && (i <= |s| ==> j <= |s|)
    ensures forall k :: i <= k < j ==> k < |s| && p(s[k])
    ensures j < |s| ==> !p(s[j])
    decreases |s| - i
  {
    if i < |s| && p(s[i]) then Scan(s, i + 1, p) else i
  }

  datatype Cuts = Cuts(keyStart: nat, keyEnd: nat, valueStart: nat, valueEnd: nat)

  function CutsAt(s: string, i: nat): (c: Cuts)
    ensures i <= |s| ==> i <= c.keyStart <= c.keyEnd <= c.valueStart <= c.valueEnd <= |s|
    ensures At(s, i) != NUL ==> c.valueEnd > i
  {
    var keyStart := Scan(s, i, BeforeKey);
    var keyEnd := Scan(s, keyStart, InKey);
    var valueStart := Scan(s, keyEnd, BeforeValue);
    Cuts(keyStart, keyEnd, valueStart, Scan(s, valueStart, InValue))
  }

  type Kv = map<string, string>

  // What one turn of the outer loop stores: a pair, unless key or value is empty.
  function Found(s: string, c: Cuts): seq<(string, string)>
    requires c.keyStart <= c.keyEnd <= c.valueStart <= c.valueEnd <= |s|
  {
    if c.keyEnd > c.keyStart && c.valueEnd > c.valueStart
    then [(s[c.keyStart..c.keyEnd], s[c.valueStart..c.valueEnd])] else []
  }

  // The pairs that the outer loop stores from place i on, in order.
  function Pairs(s: string, i: nat): seq<(string, string)>
    requires i <= |s|
    decreases |s| - i
  {
    if At(s, i) == NUL then [] else Found(s, CutsAt(s, i)) + Pairs(s, CutsAt(s, i).valueEnd)
  }

  function Fill(m: Kv, pairs: seq<(string, string)>): Kv
    decreases |pairs|
  {
    if pairs == [] then m else Fill(m[pairs[0].0 := pairs[0].1], pairs[1..])
  }

  // One of the four scanning loops.
  method Advance(str: string, i: nat, p: char -> bool) returns (j: nat)
    requires i <= |str|
    ensures j == Scan(str, i, p)
  {
    j := i;
    while j < |str| && p(str[j])
      invariant i <= j <= |str| && Scan(str, j, p) == Scan(str, i, p)
    {
      j := j + 1;
    }
  }

  // parse_string
  method ParseString(str: string, result: Kv) returns (hasKv: bool, r: Kv)
    ensures r == Fill(result, Pairs(str, 0)) && hasKv == (Pairs(str, 0) != [])
  {
    var keyStart := 0;
    hasKv, r := false, result;
    ghost var all, done := Pairs(str, 0), [];
    while At(str, keyStart) != NUL
      invariant keyStart <= |str| && all == done + Pairs(str, keyStart)
      invariant r == Fill(result, done) && hasKv == (done != [])
      decreases |str| - keyStart
    {
      var c := Cut(str, keyStart);
      ghost var f, rest := Found(str, c), Pairs(str, c.valueEnd);
      Assoc(done, f, rest);
      FillMore(result, done, f);
      if c.keyEnd > c.keyStart && c.valueEnd > c.valueStart {
        r := r[str[c.keyStart..c.keyEnd] := str[c.valueStart..c.valueEnd]];
        hasKv := true;
      }
      done := done + f;
      keyStart := c.valueEnd;
    }
    assert done + [] == done;
  }

  lemma Assoc<T>(a: seq<T>, b: seq<T>, c: seq<T>)
    ensures a + (b + c) == a + b + c
  {
  }

  // The four scans of one turn.
  method Cut(str: string, i: nat) returns (c: Cuts)
    requires i <= |str|
    ensures c == CutsAt(str, i)
  {
    var keyStart := Advance(str, i, BeforeKey);
    var keyEnd := Advance(str, keyStart, InKey);
    var valueStart := Advance(str, keyEnd, BeforeValue);
    var valueEnd := Advance(str, valueStart, InValue);
    c := Cuts(keyStart, keyEnd, valueStart, valueEnd);
  }

  lemma {:induction false} FillMore(m: Kv, pairs: seq<(string, string)>, f: seq<(string, string)>)
    requires |f| <= 1
    ensures Fill(m, pairs + f) == if f == [] then Fill(m, pairs) else Fill(m, pairs)[f[0].0 := f[0].1]
    decreases |pairs|
  {
    if pairs == [] {
      assert [] + f == f;
      assert f != [] ==> f[1..] == [];
    } else {
      assert (pairs + f)[1..] == pairs[1..] + f;
      FillMore(m[pairs[0].0 := pairs[0].1], pairs[1..], f);
    }
  }

  // The maps that parsing can produce.
  predicate GoodKey(k: string) {
    k != [] && k[0] != ';' && forall c <- k :: InKey(c)
  }

  predicate GoodValue(v: string) {
    v != [] && v[0] != '=' && forall c <- v :: InValue(c)
  }

  predicate Good(m: Kv) {
    forall k <- m :: GoodKey(k) && GoodValue(m[k])
  }

  lemma {:induction false} PairsAreGood(s: string, i: nat)
    requires i <= |s|
    ensures forall p <- Pairs(s, i) :: GoodKey(p.0) && GoodValue(p.1)
    decreases |s| - i
  {
    if At(s, i) != NUL {
      var c := CutsAt(s, i);
      PairsAreGood(s, c.valueEnd);
    }
  }

  lemma {:induction false} FillIsGood(m: Kv, pairs: seq<(string, string)>)
    requires Good(m) && forall p <- pairs :: GoodKey(p.0) && GoodValue(p.1)
    ensures Good(Fill(m, pairs))
    decreases |pairs|
  {
    if pairs != [] {
      FillIsGood(m[pairs[0].0 := pairs[0].1], pairs[1..]);
    }
  }

  // Printing.

  // An order in which the map's iterator may visit its keys.
  ghost predicate Enumerates(keys: seq<string>, m: Kv) {
    && (forall k :: k in keys <==> k in m)
    && forall i, j :: 0 <= i < j < |keys| ==> keys[i] != keys[j]
  }

  function Entries(m: Kv, keys: seq<string>): string
    requires forall k <- keys :: k in m
  {
    if keys == [] then "" else keys[0] + "=" + m[keys[0]] + ";" + Entries(m, keys[1..])
  }

  function EndWithNul(s: string): string {
    if s == "" then "" else s[..|s| - 1] + [NUL]
  }

  function Print(m: Kv, keys: seq<string>): string
    requires forall k <- keys :: k in m
  {
    EndWithNul(Entries(m, keys))
  }

  lemma EntryNext(out: string, m: Kv, keys: seq<string>, i: nat)
    requires i < |keys| && forall k <- keys :: k in m
    ensures out + keys[i] + "=" + m[keys[i]] + ";" + Entries(m, keys[i + 1..]) == out + Entries(m, keys[i..])
  {
    var rest := Entries(m, keys[i + 1..]);
    assert keys[i..][1..] == keys[i + 1..];
    assert Entries(m, keys[i..]) == keys[i] + "=" + m[keys[i]] + ";" + rest;
  }

  lemma EntriesEnd(out: string, m: Kv, keys: seq<string>)
    requires (forall k <- keys :: k in m) && out + Entries(m, keys[|keys|..]) == Entries(m, keys)
    ensures out == Entries(m, keys) && EndWithNul(out) == if |out| > 0 then out[|out| - 1 := NUL] else ""
  {
    assert keys[|keys|..] == [] && out + "" == out;
  }

  // make_str, for the order in which the map's iterator visits the keys
  method MakeStr(m: Kv, keys: seq<string>) returns (out: string)
    requires Enumerates(keys, m)
    ensures out == Print(m, keys)
  {
    out := "";
    var i := 0;
    while i < |keys|
      invariant 0 <= i <= |keys| && out + Entries(m, keys[i..]) == Entries(m, keys)
    {
      assert keys[i] in m;
      EntryNext(out, m, keys, i);
      out := out + keys[i];
      out := out + "=";
      out := out + m[keys[i]];
      out := out + ";";
      i := i + 1;
    }
    EntriesEnd(out, m, keys);
    if |out| > 0 {
      out := out[|out| - 1 := NUL];
    }
  }

  // The round trip.

  // A scan passes over a block of its characters and stops after it.
  lemma {:induction false} ScanBlock(s: string, i: nat, p: char -> bool, t: string, rest: string)
    requires i <= |s| && s[i..] == t + rest && (forall c <- t :: p(c)) && (rest == "" || !p(rest[0]))
    ensures Scan(s, i, p) == i + |t| <= |s| && s[i..i + |t|] == t && s[i + |t|..] == rest
    decreases |t|
  {
    if t == "" {
      assert rest != "" ==> s[i] == s[i..][0] == rest[0];
    } else {
      assert s[i] == s[i..][0] == t[0];
      assert s[i + 1..] == s[i..][1..] == t[1..] + rest;
      ScanBlock(s, i + 1, p, t[1..], rest);
    }
  }

  // One turn on a text.

  // What the text of one turn consists of: separators, a key, at least one of '=' and ' ', and a value. Key or
  // value may be empty.
  datatype Item = Item(lead: string, key: string, gap: string, value: string) {
    predicate Ok() {
      && (forall c <- lead :: c == ';' || c == ' ')
      && (forall c <- key :: c != NUL && c != ' ' && c != '=') && (key != "" ==> key[0] != ';')
      && gap != "" && (forall c <- gap :: c == '=' || c == ' ') && (key == "" ==> gap[0] == '=')
      && (forall c <- value :: c != NUL && c != ' ' && c != ';') && (value != "" ==> value[0] != '=')
    }

    // What may stand behind it: the end, a ';', or behind a value a ' '.
    predicate EndsAt(rest: string) {
      rest == "" || rest[0] == NUL || rest[0] == ';' || (rest[0] == ' ' && value != "")
    }

    function Text(): string {
      lead + key + gap + value
    }

    // What it stores.
    function Stored(): seq<(string, string)> {
      if key != "" && value != "" then [(key, value)] else []
    }
  }

  // Two scans over two blocks.
  lemma TwoBlocks(s: string, i: nat, p: char -> bool, t: string, q: char -> bool, u: string, rest: string)
    requires i <= |s| && s[i..] == t + (u + rest) && (forall c <- t :: p(c)) && (forall c <- u :: q(c))
    requires (u + rest == "" || !p((u + rest)[0])) && (rest == "" || !q(rest[0]))
    ensures var a, b := i + |t|, i + |t| + |u|;
      b <= |s| && Scan(s, i, p) == a && Scan(s, a, q) == b && s[a..b] == u && s[b..] == rest
  {
    ScanBlock(s, i, p, t, u + rest);
    ScanBlock(s, i + |t|, q, u, rest);
  }

  // The first two scans of a turn, on what stands before the gap, and the other two.
  lemma KeyScans(s: string, i: nat, e: Item, rest: string)
    requires i <= |s| && s[i..] == e.lead + (e.key + rest) && e.Ok()
    requires rest != "" && (rest[0] == '=' || (rest[0] == ' ' && e.key != ""))
    ensures var a, b := i + |e.lead|, i + |e.lead| + |e.key|;
      b <= |s| && Scan(s, i, BeforeKey) == a && Scan(s, a, InKey) == b && s[a..b] == e.key && s[b..] == rest
  {
    assert e.key != "" ==> e.key[0] in e.key && (e.key + rest)[0] == e.key[0];
    TwoBlocks(s, i, BeforeKey, e.lead, InKey, e.key, rest);
  }

  lemma ValueScans(s: string, b: nat, e: Item, rest: string)
    requires b <= |s| && s[b..] == e.gap + (e.value + rest) && e.Ok() && e.EndsAt(rest)
    ensures var c, d := b + |e.gap|, b + |e.gap| + |e.value|;
      d <= |s| && Scan(s, b, BeforeValue) == c && Scan(s, c, InValue) == d && s[c..d] == e.value && s[d..] == rest
  {
    assert e.value != "" ==> e.value[0] in e.value && (e.value + rest)[0] == e.value[0];
    TwoBlocks(s, b, BeforeValue, e.gap, InValue, e.value, rest);
  }

  lemma ItemIsText(e: Item, s: string, i: nat, rest: string)
    requires i <= |s| && s[i..] == e.Text() + rest && e.Ok()
    ensures s[i..] == e.lead + (e.key + (e.gap + (e.value + rest))) && At(s, i) != NUL
  {
    assert e.gap[0] in e.gap;
    assert s[i] == s[i..][0] == (e.lead + e.key + e.gap)[0];
    if e.lead != "" {
      assert e.lead[0] in e.lead;
    } else if e.key != "" {
      assert e.key[0] in e.key;
    }
  }

  lemma GapBegins(e: Item, rest: string)
    requires e.Ok()
    ensures var t := e.gap + (e.value + rest); t != "" && (t[0] == '=' || (t[0] == ' ' && e.key != ""))
  {
    assert e.gap[0] in e.gap;
  }

  // c is where the four scans of one turn stop.
  predicate Stops(s: string, i: nat, c: Cuts) {
    && Scan(s, i, BeforeKey) == c.keyStart && Scan(s, c.keyStart, InKey) == c.keyEnd
    && Scan(s, c.keyEnd, BeforeValue) == c.valueStart && Scan(s, c.valueStart, InValue) == c.valueEnd
  }

  // What one turn finds on an item.
  ghost predicate Finds(s: string, i: nat, c: Cuts, e: Item) {
    && c.keyStart <= c.keyEnd <= c.valueStart <= c.valueEnd <= |s| && At(s, i) != NUL && Stops(s, i, c)
    && s[c.keyStart..c.keyEnd] == e.key && s[c.valueStart..c.valueEnd] == e.value
  }

  lemma HeadOfItem(s: string, i: nat, e: Item, rest: string) returns (a: nat, b: nat)
    requires i <= |s| && s[i..] == e.Text() + rest && e.Ok()
    ensures i <= a <= b <= |s| && Scan(s, i, BeforeKey) == a && Scan(s, a, InKey) == b && s[a..b] == e.key
    ensures s[b..] == e.gap + (e.value + rest) && At(s, i) != NUL
  {
    a, b := i + |e.lead|, i + |e.lead| + |e.key|;
    ItemIsText(e, s, i, rest);
    GapBegins(e, rest);
    KeyScans(s, i, e, e.gap + (e.value + rest));
  }

  lemma FootOfItem(s: string, b: nat, e: Item, rest: string) returns (c: nat, d: nat)
    requires b <= |s| && s[b..] == e.gap + (e.value + rest) && e.Ok() && e.EndsAt(rest)
    ensures b <= c <= d <= |s| && Scan(s, b, BeforeValue) == c && Scan(s, c, InValue) == d
    ensures s[c..d] == e.value && s[d..] == rest
  {
    c, d := b + |e.gap|, b + |e.gap| + |e.value|;
    ValueScans(s, b, e, rest);
  }

  lemma CutsOfItem(s: string, i: nat, e: Item, rest: string) returns (c: Cuts)
    requires i <= |s| && s[i..] == e.Text() + rest && e.Ok() && e.EndsAt(rest)
    ensures Finds(s, i, c, e) && s[c.valueEnd..] == rest
  {
    var keyStart, keyEnd := HeadOfItem(s, i, e, rest);
    var valueStart, valueEnd := FootOfItem(s, keyEnd, e, rest);
    c := Cuts(keyStart, keyEnd, valueStart, valueEnd);
  }

  lemma TurnByCuts(s: string, i: nat, c: Cuts, e: Item)
    requires i <= |s| && Finds(s, i, c, e)
    ensures Pairs(s, i) == e.Stored() + Pairs(s, c.valueEnd)
  {
    assert CutsAt(s, i) == c;
  }

  // So one turn stores what the item says, and stops behind it.
  lemma TurnOnItem(s: string, i: nat, e: Item, rest: string) returns (j: nat)
    requires i <= |s| && s[i..] == e.Text() + rest && e.Ok() && e.EndsAt(rest)
    ensures j <= |s| && s[j..] == rest && Pairs(s, i) == e.Stored() + Pairs(s, j)
  {
    var c := CutsOfItem(s, i, e, rest);
    TurnByCuts(s, i, c, e);
    j := c.valueEnd;
  }

  // Any text.

  function Text(items: seq<Item>, tail: string): string {
    if items == [] then tail else items[0].Text() + Text(items[1..], tail)
  }

  // Each item ends where the next one, or the tail, begins.
  predicate Parted(items: seq<Item>, tail: string) {
    items != [] ==> items[0].Ok() && items[0].EndsAt(Text(items[1..], tail)) && Parted(items[1..], tail)
  }

  // Separators and perhaps a word that nothing follows, up to the end of the string or a NUL.
  predicate IsTail(tail: string, lead: string, word: string, end: string) {
    && tail == lead + word + end && (forall c <- lead :: c == ';' || c == ' ')
    && (forall c <- word :: c != NUL && c != ' ' && c != '=') && (word != "" ==> word[0] != ';')
    && (end == "" || end[0] == NUL)
  }

  function AllStored(items: seq<Item>): seq<(string, string)> {
    if items == [] then [] else items[0].Stored() + AllStored(items[1..])
  }

  lemma TailScans(s: string, i: nat, lead: string, word: string, end: string)
    requires i <= |s| && s[i..] == lead + (word + end) && IsTail(s[i..], lead, word, end)
    ensures var a, b := i + |lead|, i + |lead| + |word|; b <= |s| && At(s, b) == NUL && Stops(s, i, Cuts(a, b, b, b))
  {
    assert word != "" ==> word[0] in word && (word + end)[0] == word[0];
    TwoBlocks(s, i, BeforeKey, lead, InKey, word, end);
    EndScans(s, i + |lead| + |word|, end);
  }

  lemma EndScans(s: string, b: nat, end: string)
    requires b <= |s| && s[b..] == end && (end == "" || end[0] == NUL)
    ensures At(s, b) == NUL && Scan(s, b, BeforeValue) == b && Scan(s, b, InValue) == b
  {
    assert end != "" ==> s[b] == s[b..][0];
  }

  lemma TailStoresNothing(s: string, i: nat, lead: string, word: string, end: string)
    requires i <= |s| && IsTail(s[i..], lead, word, end)
    ensures Pairs(s, i) == []
  {
    if At(s, i) != NUL {
      assert lead + word + end == lead + (word + end);
      TailScans(s, i, lead, word, end);
      var a, b := i + |lead|, i + |lead| + |word|;
      assert CutsAt(s, i) == Cuts(a, b, b, b);
      NothingAtEnd(s, i, b);
    }
  }

  lemma NothingAtEnd(s: string, i: nat, b: nat)
    requires i < |s| && b <= |s| && At(s, i) != NUL && At(s, b) == NUL
    requires CutsAt(s, i).valueEnd == b && CutsAt(s, i).valueStart == b
    ensures Pairs(s, i) == []
  {
    assert Pairs(s, b) == [];
  }

  // Parsing stores the pairs of all items, in order, and nothing else.
  lemma {:induction false} PairsOfText(s: string, i: nat, items: seq<Item>, lead: string, word: string, end: string)
    requires i <= |s| && s[i..] == Text(items, lead + word + end)
    requires IsTail(lead + word + end, lead, word, end) && Parted(items, lead + word + end)
    ensures Pairs(s, i) == AllStored(items)
    decreases |items|
  {
    if items == [] {
      TailStoresNothing(s, i, lead, word, end);
    } else {
      var j := TurnOnItem(s, i, items[0], Text(items[1..], lead + word + end));
      PairsOfText(s, j, items[1..], lead, word, end);
    }
  }

  // Every string is such a text.

  lemma FourParts(s: string, i: nat, a: nat, b: nat, c: nat, d: nat)
    requires i <= a <= b <= c <= d <= |s|
    ensures s[i..] == s[i..a] + s[a..b] + s[b..c] + s[c..d] + s[d..]
  {
  }

  lemma ItemAt(s: string, i: nat, c: Cuts) returns (e: Item)
    requires i <= |s| && c == CutsAt(s, i) && c.keyEnd < c.valueStart
    ensures e.Ok() && e.EndsAt(s[c.valueEnd..]) && s[i..] == e.Text() + s[c.valueEnd..]
  {
    e := Item(s[i..c.keyStart], s[c.keyStart..c.keyEnd], s[c.keyEnd..c.valueStart], s[c.valueStart..c.valueEnd]);
    FourParts(s, i, c.keyStart, c.keyEnd, c.valueStart, c.valueEnd);
    ItemOk(s, i, c);
  }

  // What stands between the cuts, character by character.
  lemma ItemOk(s: string, i: nat, c: Cuts)
    requires i <= |s| && c == CutsAt(s, i) && c.keyEnd < c.valueStart
    ensures var e := Item(s[i..c.keyStart], s[c.keyStart..c.keyEnd], s[c.keyEnd..c.valueStart], s[c.valueStart..c.valueEnd]);
      e.Ok() && e.EndsAt(s[c.valueEnd..])
  {
    assert forall k :: i <= k < c.keyStart ==> BeforeKey(s[k]);
    assert forall k :: c.keyStart <= k < c.keyEnd ==> InKey(s[k]);
    assert forall k :: c.keyEnd <= k < c.valueStart ==> BeforeValue(s[k]);
    assert forall k :: c.valueStart <= k < c.valueEnd ==> InValue(s[k]);
  }

  lemma TailAt(s: string, i: nat, c: Cuts)
    requires i <= |s| && c == CutsAt(s, i) && c.keyEnd == c.valueStart
    ensures IsTail(s[i..], s[i..c.keyStart], s[c.keyStart..c.keyEnd], s[c.keyEnd..])
  {
    assert s[i..] == s[i..c.keyStart] + s[c.keyStart..c.keyEnd] + s[c.keyEnd..];
  }

  lemma {:induction false} AnyText(s: string, i: nat) returns (items: seq<Item>, lead: string, word: string, end: string)
    requires i <= |s|
    ensures s[i..] == Text(items, lead + word + end)
    ensures IsTail(lead + word + end, lead, word, end) && Parted(items, lead + word + end)
    decreases |s| - i
  {
    var c := CutsAt(s, i);
    if c.keyEnd == c.valueStart {
      items, lead, word, end := [], s[i..c.keyStart], s[c.keyStart..c.keyEnd], s[c.keyEnd..];
      TailAt(s, i, c);
    } else {
      var e := ItemAt(s, i, c);
      var rest;
      rest, lead, word, end := AnyText(s, c.valueEnd);
      items := [e] + rest;
      assert items[1..] == rest;
    }
  }

  // A later pair replaces an earlier one of the same key, and what no pair names stays.
  lemma {:induction false} FillIs(m: Kv, pairs: seq<(string, string)>, k: string)
    ensures k in Fill(m, pairs) <==> k in m || exists i :: 0 <= i < |pairs| && pairs[i].0 == k
    ensures forall i :: 0 <= i < |pairs| && pairs[i].0 == k && (forall j :: i < j < |pairs| ==> pairs[j].0 != k) ==>
      Fill(m, pairs)[k] == pairs[i].1
    ensures (forall i :: 0 <= i < |pairs| ==> pairs[i].0 != k) && k in m ==> Fill(m, pairs)[k] == m[k]
    decreases |pairs|
  {
    if pairs != [] {
      FillIs(m[pairs[0].0 := pairs[0].1], pairs[1..], k);
    }
  }

  // The entries in order, each led by what ends the one before it.
  function EntryPairs(m: Kv, keys: seq<string>): seq<(string, string)>
    requires forall k <- keys :: k in m
  {
    if keys == [] then [] else [(keys[0], m[keys[0]])] + EntryPairs(m, keys[1..])
  }

  // Parsing printed entries gives them back, in order.
  lemma {:induction false} PairsOfPrint(s: string, i: nat, lead: string, m: Kv, keys: seq<string>)
    requires i <= |s| && (forall k <- keys :: k in m) && Good(m)
    requires forall c <- lead :: BeforeKey(c)
    requires s[i..] == if keys == [] then [NUL] else lead + Print(m, keys)
    ensures Pairs(s, i) == EntryPairs(m, keys)
    decreases |keys|
  {
    if keys == [] {
      assert s[i] == s[i..][0] == NUL;
    } else {
      var e, rest := FirstEntry(lead, m, keys);
      var j := TurnOnItem(s, i, e, rest);
      PairsOfPrint(s, j, ";", m, keys[1..]);
    }
  }

  lemma FirstEntry(lead: string, m: Kv, keys: seq<string>) returns (e: Item, rest: string)
    requires (forall k <- keys :: k in m) && Good(m) && keys != [] && forall c <- lead :: BeforeKey(c)
    ensures e.Ok() && e.EndsAt(rest) && lead + Print(m, keys) == e.Text() + rest && e.Stored() == [(keys[0], m[keys[0]])]
    ensures rest == if keys[1..] == [] then [NUL] else ";" + Print(m, keys[1..])
  {
    assert keys[0] in m;
    e := Item(lead, keys[0], "=", m[keys[0]]);
    rest := if keys[1..] == [] then [NUL] else ";" + Print(m, keys[1..]);
    PrintFirst(m, keys);
    EntryIsItem(e, rest);
  }

  lemma EntryIsItem(e: Item, rest: string)
    requires (forall c <- e.lead :: BeforeKey(c)) && GoodKey(e.key) && e.gap == "=" && GoodValue(e.value)
    ensures e.Ok() && e.Text() + rest == e.lead + (e.key + ("=" + (e.value + rest)))
    ensures e.Stored() == [(e.key, e.value)]
  {
  }

  lemma EndBehind(a: string, e: string)
    requires e != ""
    ensures EndWithNul(a + e) == a + EndWithNul(e)
  {
  }

  lemma PrintFirst(m: Kv, keys: seq<string>)
    requires (forall k <- keys :: k in m) && keys != []
    ensures var rest := if keys[1..] == [] then [NUL] else ";" + Print(m, keys[1..]);
      Print(m, keys) == keys[0] + ("=" + (m[keys[0]] + rest))
  {
    var e := Entries(m, keys[1..]);
    var first := keys[0] + "=" + m[keys[0]];
    assert Entries(m, keys) == first + (";" + e);
    EndBehind(first, ";" + e);
    if keys[1..] != [] {
      EndBehind(";", e);
    }
  }

  function Chosen(m: Kv, keys: seq<string>): Kv
    requires forall k <- keys :: k in m
  {
    map k | k in keys :: m[k]
  }

  lemma ChosenAll(m: Kv, keys: seq<string>)
    requires Enumerates(keys, m)
    ensures map[] + Chosen(m, keys) == m
  {
  }

  lemma ChosenFirst(m0: Kv, m: Kv, keys: seq<string>)
    requires keys != [] && forall k <- keys :: k in m
    ensures m0[keys[0] := m[keys[0]]] + Chosen(m, keys[1..]) == m0 + Chosen(m, keys)
  {
    assert forall k :: k in keys <==> k == keys[0] || k in keys[1..];
  }

  lemma {:induction false} FillEntries(m0: Kv, m: Kv, keys: seq<string>)
    requires forall k <- keys :: k in m
    ensures Fill(m0, EntryPairs(m, keys)) == m0 + Chosen(m, keys)
    decreases |keys|
  {
    if keys == [] {
      assert Chosen(m, keys) == map[];
    } else {
      var m1 := m0[keys[0] := m[keys[0]]];
      FillEntries(m1, m, keys[1..]);
      assert EntryPairs(m, keys)[1..] == EntryPairs(m, keys[1..]);
      ChosenFirst(m0, m, keys);
    }
  }

  // parse_string into an empty map
  function Parse(s: string): Kv {
    Fill(map[], Pairs(s, 0))
  }

  lemma ParseIsGood(s: string)
    ensures Good(Parse(s))
  {
    PairsAreGood(s, 0);
    FillIsGood(map[], Pairs(s, 0));
  }

  // Parsing what was printed gives the map back exactly when its keys and values are good.
  lemma RoundTrip(m: Kv, keys: seq<string>)
    requires Enumerates(keys, m)
    ensures Parse(Print(m, keys)) == m <==> Good(m)
  {
    var s := Print(m, keys);
    ParseIsGood(s);
    if Good(m) {
      if keys == [] {
        assert m == map[];
      } else {
        assert s[0..] == "" + s;
        PairsOfPrint(s, 0, "", m, keys);
        FillEntries(map[], m, keys);
        ChosenAll(m, keys);
      }
    }
  }

  // Parsing is stable: what parsing gives is printed and parsed back unchanged, for every string.
  lemma Reparse(s: string, keys: seq<string>)
    requires Enumerates(keys, Parse(s))
    ensures Parse(Print(Parse(s), keys)) == Parse(s)
  {
    ParseIsGood(s);
    RoundTrip(Parse(s), keys);
  }
}
