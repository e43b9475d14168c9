/** The texts of py_proto/proto.py with their separators written out, and what reading makes of any text. */
module ProtoLayout {
  import opened Basics
  import opened Guard
  import opened Decimal
  import opened ProtoText
  import opened ProtoCodec

  // Packed texts.

  // The fields of a record, in any order, each as its key, a ':' and its text, with a ',' between two of them.
  ghost predicate Fields(d: nat, T: Types, args: Args, m: map<string, Value>, left: set<string>, s: string) {
    if left == {} then s == ""
    else exists k: string, t: string, rest: string ::
      k in left && k in m && k in args && FieldPacks(d, T, args[k], m[k], t) && Fields(d, T, args, m, left - {k}, rest) &&
      s == k + ":" + t + (if left == {k} then "" else "," + rest)
  }

  // Items with a ';' between two of them.
  ghost predicate Items(d: nat, T: Types, fmt: string, items: seq<Value>, s: string) {
    if items == [] then s == ""
    else exists t: string, rest: string ::
      TypePacks(d, T, fmt, items[0], t) && Items(d, T, fmt, items[1..], rest) &&
      s == t + (if |items| == 1 then "" else ";" + rest)
  }

  lemma {:induction false} ItemsWritten(d: nat, T: Types, fmt: string, items: seq<Value>, texts: seq<string>)
    requires ItemsPack(d, T, fmt, items, texts)
    ensures Items(d, T, fmt, items, Join(texts, ';'))
    decreases |items|
  {
    if items != [] {
      ItemsWritten(d, T, fmt, items[1..], texts[1..]);
      ItemsFirst(d, T, fmt, items, texts[0], Join(texts[1..], ';'));
      JoinIs(texts[0], texts[1..], ';');
      assert texts == [texts[0]] + texts[1..];
    }
  }

  lemma ItemsFirst(d: nat, T: Types, fmt: string, items: seq<Value>, t: string, rest: string)
    requires items != [] && TypePacks(d, T, fmt, items[0], t) && Items(d, T, fmt, items[1..], rest)
    ensures Items(d, T, fmt, items, if |items| == 1 then t else t + [';'] + rest)
  {
    assert t + "" == t && t + [';'] + rest == t + (";" + rest);
  }

  lemma FirstItem(d: nat, T: Types, fmt: string, items: seq<Value>, s: string) returns (t: string, rest: string)
    requires Items(d, T, fmt, items, s) && items != []
    ensures TypePacks(d, T, fmt, items[0], t) && Items(d, T, fmt, items[1..], rest)
    ensures s == t + (if |items| == 1 then "" else ";" + rest)
  {
    t, rest :|
      TypePacks(d, T, fmt, items[0], t) && Items(d, T, fmt, items[1..], rest) &&
      s == t + (if |items| == 1 then "" else ";" + rest);
  }

  lemma {:induction false} ItemsRead(d: nat, T: Types, fmt: string, items: seq<Value>, s: string) returns (texts: seq<string>)
    requires Items(d, T, fmt, items, s)
    ensures ItemsPack(d, T, fmt, items, texts) && s == Join(texts, ';')
    decreases |items|
  {
    if items == [] {
      texts := [];
    } else {
      var t, rest := FirstItem(d, T, fmt, items, s);
      var more := ItemsRead(d, T, fmt, items[1..], rest);
      texts := [t] + more;
      assert texts[1..] == more;
    }
  }

  // A list field is packed to its items, with a ';' between two of them.
  lemma ListText(d: nat, T: Types, fmt: string, items: seq<Value>, s: string)
    ensures FieldPacks(d, T, Spec(fmt, [0]), List(items), s) <==> Items(d, T, fmt, items, s)
  {
    if FieldPacks(d, T, Spec(fmt, [0]), List(items), s) {
      var texts: seq<string> :| ItemsPack(d, T, fmt, items, texts) && s == Join(texts, LIST_SEP);
      ItemsWritten(d, T, fmt, items, texts);
    }
    if Items(d, T, fmt, items, s) {
      var texts := ItemsRead(d, T, fmt, items, s);
    }
  }

  // Items of the basic types.
  lemma BasicText(d: nat, T: Types, v: Value, s: string)
    ensures TypePacks(d, T, "int", v, s) <==> v.Int? && Writes(s, v.n)
    ensures TypePacks(d, T, "str", v, s) <==> v.Str? && s == v.s
    ensures !TypePacks(d, T, "float", v, s)
  {
    if v.Int? {
      TextWrites(s, v.n);
    }
  }

  // A field whose tuple is anything else than (format, 0) is packed and read by its format, and a format that is none of
  // the basic types names a user type, one record deeper.
  lemma OneValue(d: nat, T: Types, sp: Spec, v: Value, s: string)
    requires sp.extra != [0]
    ensures FieldPacks(d, T, sp, v, s) <==> TypePacks(d, T, sp.fmt, v, s)
    ensures ReadField(d, T, sp, s) == ReadType(d, T, sp.fmt, s)
    ensures sp.fmt !in {"int", "float", "str"} ==>
      && (TypePacks(d, T, sp.fmt, v, s) <==> sp.fmt in T && d > 0 && RecordPacks(d - 1, T, T[sp.fmt], v, s))
      && ReadType(d, T, sp.fmt, s) == if sp.fmt in T && d > 0 then ReadRecord(d - 1, T, T[sp.fmt], s) else None
  {
    assert IsList(sp) <==> sp.extra == [0];
  }

  // Data that is no dict packs to nothing, if a loop over it meets no declared name and nothing unhashable.
  lemma NoRecordText(d: nat, T: Types, args: Args, v: Value, s: string)
    requires !v.Record?
    ensures RecordPacks(d, T, args, v, s) <==>
            s == "" && match v
                       case Int(_) => false
                       case Str(t) => forall c <- t :: [c] !in args
                       case List(items) => forall x <- items :: x.Int? || (x.Str? && x.s !in args)
  {
    match v {
      case Str(t) =>
        assert forall k :: 0 <= k < |t| ==> t[k] in t;
      case List(items) =>
        assert forall k :: 0 <= k < |items| ==> items[k] in items;
      case _ =>
    }
  }

  // Keys left to pack, in the order of a loop.
  ghost predicate Packed(d: nat, T: Types, args: Args, m: map<string, Value>, keys: seq<string>, texts: seq<string>) {
    |texts| == |keys| && forall i :: 0 <= i < |keys| ==>
      keys[i] in m && keys[i] in args && FieldPacks(d, T, args[keys[i]], m[keys[i]], texts[i])
  }

  lemma JoinFirst(keys: seq<string>, texts: seq<string>)
    requires |keys| == |texts| > 0
    ensures Join(Pairs(keys, texts), ',') ==
            keys[0] + ":" + texts[0] + (if |keys| == 1 then "" else "," + Join(Pairs(keys[1..], texts[1..]), ','))
  {
    var pairs := Pairs(keys, texts);
    assert pairs[1..] == Pairs(keys[1..], texts[1..]) && pairs[0] == keys[0] + ":" + texts[0];
  }

  lemma {:induction false} FieldsWritten(d: nat, T: Types, args: Args, m: map<string, Value>, keys: seq<string>,
      texts: seq<string>, left: set<string>)
    requires Orders(keys, left) && Packed(d, T, args, m, keys, texts)
    ensures Fields(d, T, args, m, left, Join(Pairs(keys, texts), ','))
    decreases |keys|
  {
    if keys == [] {
      assert left == {};
    } else {
      OrdersRest(keys, left);
      FieldsWritten(d, T, args, m, keys[1..], texts[1..], left - {keys[0]});
      JoinFirst(keys, texts);
    }
  }

  lemma OrdersRest(keys: seq<string>, left: set<string>)
    requires Orders(keys, left) && keys != []
    ensures Orders(keys[1..], left - {keys[0]}) && keys[0] in left && (left == {keys[0]} <==> |keys| == 1)
  {
    forall k | k in left - {keys[0]} ensures exists i :: 0 <= i < |keys[1..]| && keys[1..][i] == k {
      var i :| 0 <= i < |keys| && keys[i] == k;
      assert keys[1..][i - 1] == k;
    }
    if |keys| > 1 {
      assert keys[1] in left && keys[1] != keys[0];
    } else {
      assert forall k :: k in left ==> k == keys[0];
    }
  }

  lemma OrdersFirst(k: string, keys: seq<string>, left: set<string>)
    requires k in left && Orders(keys, left - {k})
    ensures Orders([k] + keys, left)
  {
    var all := [k] + keys;
    forall n | n in left ensures exists i :: 0 <= i < |all| && all[i] == n {
      if n == k {
        assert all[0] == n;
      } else {
        assert n in left - {k};
        var i :| 0 <= i < |keys| && keys[i] == n;
        assert all[i + 1] == n;
      }
    }
  }

  // The first field of such a text.
  lemma FirstField(d: nat, T: Types, args: Args, m: map<string, Value>, left: set<string>, s: string)
      returns (k: string, t: string, rest: string)
    requires Fields(d, T, args, m, left, s) && left != {}
    ensures k in left && k in m && k in args && FieldPacks(d, T, args[k], m[k], t)
    ensures Fields(d, T, args, m, left - {k}, rest) && s == k + ":" + t + (if left == {k} then "" else "," + rest)
  {
    k, t, rest :|
      k in left && k in m && k in args && FieldPacks(d, T, args[k], m[k], t) && Fields(d, T, args, m, left - {k}, rest) &&
      s == k + ":" + t + (if left == {k} then "" else "," + rest);
  }

  lemma PackedFirst(d: nat, T: Types, args: Args, m: map<string, Value>, k: string, t: string, keys: seq<string>,
      texts: seq<string>, left: set<string>)
    requires k in left && k in m && k in args && FieldPacks(d, T, args[k], m[k], t)
    requires Orders(keys, left - {k}) && Packed(d, T, args, m, keys, texts)
    ensures Orders([k] + keys, left) && Packed(d, T, args, m, [k] + keys, [t] + texts)
    ensures Join(Pairs([k] + keys, [t] + texts), ',') ==
            k + ":" + t + (if left == {k} then "" else "," + Join(Pairs(keys, texts), ','))
  {
    OrdersFirst(k, keys, left);
    OrdersRest([k] + keys, left);
    assert ([k] + keys)[1..] == keys && ([t] + texts)[1..] == texts;
    JoinFirst([k] + keys, [t] + texts);
  }

  lemma {:induction false} FieldsRead(d: nat, T: Types, args: Args, m: map<string, Value>, left: set<string>, s: string)
      returns (keys: seq<string>, texts: seq<string>)
    requires Fields(d, T, args, m, left, s)
    ensures Orders(keys, left) && Packed(d, T, args, m, keys, texts) && s == Join(Pairs(keys, texts), ',')
    decreases |left|
  {
    if left == {} {
      keys, texts := [], [];
    } else {
      var k, t, rest := FirstField(d, T, args, m, left, s);
      var ks, ts := FieldsRead(d, T, args, m, left - {k}, rest);
      keys, texts := [k] + ks, [t] + ts;
      PackedFirst(d, T, args, m, k, t, ks, ts, left);
    }
  }

  // A record is packed to its declared fields, in some order: key, ':' and text, with a ',' between two of them.
  lemma RecordText(d: nat, T: Types, args: Args, m: map<string, Value>, s: string)
    ensures RecordPacks(d, T, args, Record(m), s) <==> Fields(d, T, args, m, m.Keys * args.Keys, s)
  {
    if RecordPacks(d, T, args, Record(m), s) {
      var keys: seq<string>, texts: seq<string> :|
        LaidOut(d, T, args, m, keys, texts) && s == Join(Pairs(keys, texts), DICT_SEP);
      FieldsWritten(d, T, args, m, keys, texts, m.Keys * args.Keys);
    }
    if Fields(d, T, args, m, m.Keys * args.Keys, s) {
      var keys, texts := FieldsRead(d, T, args, m, m.Keys * args.Keys, s);
      assert LaidOut(d, T, args, m, keys, texts);
    }
  }

  // Reading any text.

  // Every string consists of parts with a separator between them.
  lemma {:induction false} JoinOfSplit(s: string, sep: char)
    ensures Join(Split(s, sep), sep) == s && forall i :: 0 <= i < |Split(s, sep)| ==> sep !in Split(s, sep)[i]
    decreases |s|
  {
    SplitLacks(s, sep, sep);
    FindFirst(s, sep);
    var i := Find(s, sep);
    if i >= 0 {
      var parts := Split(s[i + 1..], sep);
      JoinOfSplit(s[i + 1..], sep);
      JoinIs(s[..i], parts, sep);
      CutAt(s, i);
    }
  }

  lemma CutAt(s: string, i: nat)
    requires i < |s|
    ensures s == s[..i] + [s[i]] + s[i + 1..]
  {
  }

  // What a join looks like.
  lemma JoinIs(first: string, rest: seq<string>, sep: char)
    ensures Join([], sep) == "" && Join([first] + rest, sep) == if rest == [] then first else first + [sep] + Join(rest, sep)
  {
    assert ([first] + rest)[1..] == rest;
  }

  // The key and the text of a part: before and behind its first ':'. Without one the text is all of the part,
  // and the key all but its last character.
  predicate IsPair(part: string, key: string, text: string) {
    if ':' in part then part == key + ":" + text && ':' !in key
    else text == part && key == if part == "" then "" else part[..|part| - 1]
  }

  lemma PairIs(part: string, key: string, text: string)
    requires IsPair(part, key, text)
    ensures KeyOf(part) == key && TextOf(part) == text
  {
    if ':' in part {
      FindIs(key, ':', text);
      assert part[..|key|] == key && part[|key| + 1..] == text;
    } else {
      FindFirst(part, ':');
    }
  }

  // Of the first n keys, i is the place of the last one that is the same as keys[i].
  predicate IsLast(keys: seq<string>, i: nat, n: nat)
    requires i < n <= |keys|
  {
    forall j :: i < j < n ==> keys[j] != keys[i]
  }

  // Of the first n pairs, those that are the last ones of their keys make up the dict.
  ghost predicate LastOfEach(dct: map<string, string>, keys: seq<string>, texts: seq<string>, n: nat)
    requires n <= |keys| == |texts|
  {
    forall z {:trigger Look(z)} :: Look(z) ==> LastOfEachNow(dct, keys, texts, n)
  }

  ghost predicate LastOfEachNow(dct: map<string, string>, keys: seq<string>, texts: seq<string>, n: nat)
    requires n <= |keys| == |texts|
  {
    && (forall k :: k in dct <==> k in keys[..n])
    && (forall i: nat {:trigger IsLast(keys, i, n)} :: i < n && IsLast(keys, i, n) ==> dct[keys[i]] == texts[i])
  }

  lemma LastMore(dct: map<string, string>, keys: seq<string>, texts: seq<string>, n: nat)
    requires n < |keys| == |texts| && LastOfEach(dct, keys, texts, n)
    ensures LastOfEach(dct[keys[n] := texts[n]], keys, texts, n + 1)
  {
    assert Look(0);
    var more := dct[keys[n] := texts[n]];
    assert keys[..n + 1] == keys[..n] + [keys[n]];
    forall i: nat | i < n + 1 && IsLast(keys, i, n + 1) ensures more[keys[i]] == texts[i] {
      if i < n {
        assert keys[n] != keys[i] && IsLast(keys, i, n);
      }
    }
  }

  ghost predicate ArePairs(parts: seq<string>, keys: seq<string>, texts: seq<string>) {
    |parts| == |keys| == |texts| && forall i :: 0 <= i < |parts| ==> IsPair(parts[i], keys[i], texts[i])
  }

  lemma StrDictMore(parts: seq<string>, keys: seq<string>, texts: seq<string>, n: nat)
    requires ArePairs(parts, keys, texts) && n < |parts|
    ensures StrDict(parts, n + 1) == StrDict(parts, n)[keys[n] := texts[n]]
  {
    assert IsPair(parts[n], keys[n], texts[n]);
    PairIs(parts[n], keys[n], texts[n]);
  }

  lemma {:induction false} StrDictIs(parts: seq<string>, keys: seq<string>, texts: seq<string>, n: nat)
    requires ArePairs(parts, keys, texts) && n <= |parts|
    ensures LastOfEach(StrDict(parts, n), keys, texts, n)
  {
    if n > 0 {
      var dct := StrDict(parts, n - 1);
      StrDictIs(parts, keys, texts, n - 1);
      LastMore(dct, keys, texts, n - 1);
      StrDictMore(parts, keys, texts, n - 1);
    }
  }

  // The dict of any text, given as its parts: of the pairs with one key the last counts.
  lemma DictIs(parts: seq<string>, keys: seq<string>, texts: seq<string>)
    requires ArePairs(parts, keys, texts) && parts != [] && forall i :: 0 <= i < |parts| ==> ',' !in parts[i]
    ensures LastOfEachNow(Dict(Join(parts, ',')), keys, texts, |parts|)
  {
    SplitOfJoin(parts, ',');
    StrDictIs(parts, keys, texts, |parts|);
    assert Look(0);
  }

  // A field is read from its text in the dict, and what is not declared is not read.
  lemma FieldsOfDict(d: nat, T: Types, args: Args, s: string, r: map<string, Value>)
    ensures ReadRecord(d, T, args, s) == Some(Record(r)) <==>
            && (forall k :: k in r <==> k in Dict(s) && k in args)
            && (forall k <- r :: ReadField(d, T, args[k], Dict(s)[k]) == Some(r[k]))
  {
    var dct := Dict(s);
    if (forall k :: k in r <==> k in dct && k in args) && forall k <- r :: ReadField(d, T, args[k], dct[k]) == Some(r[k]) {
      ReadFieldsIs(d, T, args, dct, r);
    }
  }

  // A list is read part by part.
  lemma ListRead(d: nat, T: Types, fmt: string, parts: seq<string>, items: seq<Value>)
    requires |parts| > 0 && forall i :: 0 <= i < |parts| ==> ';' !in parts[i]
    ensures ReadField(d, T, Spec(fmt, [0]), Join(parts, ';')) == Some(List(items)) <==>
            |items| == |parts| && forall i :: 0 <= i < |parts| ==> ReadType(d, T, fmt, parts[i]) == Some(items[i])
  {
    SplitOfJoin(parts, ';');
    if |items| == |parts| && forall i :: 0 <= i < |parts| ==> ReadType(d, T, fmt, parts[i]) == Some(items[i]) {
      ReadItemsIs(d, T, fmt, parts, items);
    }
  }

  // The basic types.
  lemma BasicRead(d: nat, T: Types, s: string, v: Value)
    ensures ReadType(d, T, "int", s) == Some(v) <==> v.Int? && Reads(s, v.n, false)
    ensures ReadType(d, T, "float", s) == Some(v) <==> v.Int? && Reads(s, v.n, true)
    ensures ReadType(d, T, "str", s) == Some(v) <==> v == Str(s)
  {
    if v.Int? {
      ParseIntReads(s, v.n);
      ParseLongReads(s, v.n);
    }
  }
}
