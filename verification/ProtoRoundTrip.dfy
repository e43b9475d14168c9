/** When unpack gives back what pack was given (py_proto/proto.py). */
module ProtoRoundTrip {
  import opened Basics
  import opened Decimal
  import opened ProtoText
  import opened ProtoCodec

  // A value without the fields that its params do not declare.

  function Restrict(d: nat, T: Types, args: Args, v: Value): Value
    decreases d, 2
  {
    if v.Record? then
      Record(map k | k in v.fields && k in args :: RestrictField(d, T, args[k], v.fields[k]))
    else v
  }

  function RestrictField(d: nat, T: Types, sp: Spec, v: Value): Value
    decreases d, 1
  {
    if IsList(sp) && v.List? then
      List(seq(|v.items|, i requires 0 <= i < |v.items| => RestrictType(d, T, sp.fmt, v.items[i])))
    else RestrictType(d, T, sp.fmt, v)
  }

  function RestrictType(d: nat, T: Types, fmt: string, v: Value): Value
    decreases d, 0
  {
    if !Internal(fmt) && fmt in T && d > 0 then Restrict(d - 1, T, T[fmt], v) else v
  }

  // Whether the packed text of a value is free of a character, read off the value.

  predicate Lacks(c: char, d: nat, T: Types, args: Args, v: Value)
    decreases d, 2
  {
    v.Record? ==>
      && (c == DICT_SEP ==> |v.fields.Keys * args.Keys| <= 1)
      && forall k :: k in v.fields && k in args ==>
           c != KV_SEP && c !in k && FieldLacks(c, d, T, args[k], v.fields[k])
  }

  predicate FieldLacks(c: char, d: nat, T: Types, sp: Spec, v: Value)
    decreases d, 1
  {
    if IsList(sp) && v.List? then
      && (c == LIST_SEP ==> |v.items| <= 1)
      && forall i :: 0 <= i < |v.items| ==> TypeLacks(c, d, T, sp.fmt, v.items[i])
    else TypeLacks(c, d, T, sp.fmt, v)
  }

  predicate TypeLacks(c: char, d: nat, T: Types, fmt: string, v: Value)
    decreases d, 0
  {
    if !Internal(fmt) then fmt in T && d > 0 ==> Lacks(c, d - 1, T, T[fmt], v)
    else if v.Int? then c !in Text(v.n)
    else v.Str? ==> c !in v.s
  }

  // When a value comes back, read off the value: what holds no user type's data but dicts, where the names
  // are free of ':' and ',', the packed fields of ',', the packed items of ';', and where no list is empty,
  // nor a record whose params declare the empty name.

  predicate Tidy(d: nat, T: Types, args: Args, m: map<string, Value>) {
    && (m.Keys * args.Keys == {} ==> "" !in args)
    && forall k :: k in m && k in args ==>
         KV_SEP !in k && DICT_SEP !in k && FieldLacks(DICT_SEP, d, T, args[k], m[k])
  }

  predicate TidyItems(d: nat, T: Types, fmt: string, items: seq<Value>) {
    |items| > 0 && forall i :: 0 <= i < |items| ==> TypeLacks(LIST_SEP, d, T, fmt, items[i])
  }

  predicate Clean(d: nat, T: Types, args: Args, v: Value)
    decreases d, 2
  {
    && v.Record? && Tidy(d, T, args, v.fields)
    && forall k :: k in v.fields && k in args ==> FieldClean(d, T, args[k], v.fields[k])
  }

  predicate FieldClean(d: nat, T: Types, sp: Spec, v: Value)
    decreases d, 1
  {
    if IsList(sp) then
      && v.List? && TidyItems(d, T, sp.fmt, v.items)
      && forall i :: 0 <= i < |v.items| ==> TypeClean(d, T, sp.fmt, v.items[i])
    else TypeClean(d, T, sp.fmt, v)
  }

  predicate TypeClean(d: nat, T: Types, fmt: string, v: Value)
    decreases d, 0
  {
    Internal(fmt) || (fmt in T && d > 0 && Clean(d - 1, T, T[fmt], v))
  }

  // Lacks is about the text.

  lemma {:induction false} OrdersSize(keys: seq<string>, ks: set<string>)
    requires Orders(keys, ks)
    ensures |keys| == |ks|
    decreases |keys|
  {
    if keys == [] {
      assert ks == {};
    } else {
      var n := |keys| - 1;
      forall k | k in ks - {keys[n]} ensures exists i :: 0 <= i < |keys[..n]| && keys[..n][i] == k {
        var i :| 0 <= i < |keys| && keys[i] == k;
        assert keys[..n][i] == k;
      }
      OrdersSize(keys[..n], ks - {keys[n]});
    }
  }

  lemma PairHolds(key: string, text: string, c: char)
    ensures c in Pair(key, text) <==> c in key || c == KV_SEP || c in text
  {
  }

  lemma {:induction false} TextLacks(c: char, d: nat, T: Types, args: Args, v: Value, s: string)
    requires RecordPacks(d, T, args, v, s)
    ensures c !in s <==> Lacks(c, d, T, args, v)
    decreases d, 3
  {
    if v.Record? {
      var keys: seq<string>, texts: seq<string> :|
        LaidOut(d, T, args, v.fields, keys, texts) && s == Join(Pairs(keys, texts), DICT_SEP);
      LaidOutLacks(c, d, T, args, v.fields, keys, texts);
    }
  }

  lemma {:induction false} LaidOutLacks(c: char, d: nat, T: Types, args: Args, m: map<string, Value>,
      keys: seq<string>, texts: seq<string>)
    requires LaidOut(d, T, args, m, keys, texts)
    ensures c !in Join(Pairs(keys, texts), DICT_SEP) <==> Lacks(c, d, T, args, Record(m))
    decreases d, 2
  {
    var pairs, ks := Pairs(keys, texts), m.Keys * args.Keys;
    JoinHolds(pairs, DICT_SEP, c);
    OrdersSize(keys, ks);
    forall i | 0 <= i < |keys|
      ensures c in pairs[i] <==> c == KV_SEP || c in keys[i] || !FieldLacks(c, d, T, args[keys[i]], m[keys[i]])
    {
      PairHolds(keys[i], texts[i], c);
      FieldTextLacks(c, d, T, args[keys[i]], m[keys[i]], texts[i]);
    }
    if c !in Join(pairs, DICT_SEP) {
      forall k | k in m && k in args ensures c != KV_SEP && c !in k && FieldLacks(c, d, T, args[k], m[k]) {
        assert k in ks;
        var i :| 0 <= i < |keys| && keys[i] == k;
        assert c !in pairs[i];
      }
    } else if |keys| >= 2 && c == DICT_SEP {
    } else {
      var i :| 0 <= i < |pairs| && c in pairs[i];
      assert keys[i] in m && keys[i] in args;
    }
  }

  lemma {:induction false} FieldTextLacks(c: char, d: nat, T: Types, sp: Spec, v: Value, s: string)
    requires FieldPacks(d, T, sp, v, s)
    ensures c !in s <==> FieldLacks(c, d, T, sp, v)
    decreases d, 1
  {
    if IsList(sp) {
      var texts: seq<string> :| ItemsPack(d, T, sp.fmt, v.items, texts) && s == Join(texts, LIST_SEP);
      JoinHolds(texts, LIST_SEP, c);
      forall i | 0 <= i < |texts| ensures c !in texts[i] <==> TypeLacks(c, d, T, sp.fmt, v.items[i]) {
        TypeTextLacks(c, d, T, sp.fmt, v.items[i], texts[i]);
      }
    } else {
      TypeTextLacks(c, d, T, sp.fmt, v, s);
    }
  }

  lemma {:induction false} TypeTextLacks(c: char, d: nat, T: Types, fmt: string, v: Value, s: string)
    requires TypePacks(d, T, fmt, v, s)
    ensures c !in s <==> TypeLacks(c, d, T, fmt, v)
    decreases d, 0
  {
    if !Internal(fmt) {
      TextLacks(c, d - 1, T, T[fmt], v, s);
    }
  }

  // Fields that are not declared do not matter to it.

  lemma SameLacks(c: char, d: nat, T: Types, args: Args, m: map<string, Value>, r: map<string, Value>)
    requires r.Keys == m.Keys * args.Keys
    requires forall k :: k in r ==> (FieldLacks(c, d, T, args[k], r[k]) <==> FieldLacks(c, d, T, args[k], m[k]))
    ensures Lacks(c, d, T, args, Record(r)) <==> Lacks(c, d, T, args, Record(m))
  {
    assert r.Keys * args.Keys == m.Keys * args.Keys;
  }

  lemma {:induction false} RestrictLacks(c: char, d: nat, T: Types, args: Args, v: Value)
    ensures Lacks(c, d, T, args, Restrict(d, T, args, v)) <==> Lacks(c, d, T, args, v)
    decreases d, 2
  {
    if v.Record? {
      var r := Restrict(d, T, args, v);
      forall k | k in r.fields
        ensures FieldLacks(c, d, T, args[k], r.fields[k]) <==> FieldLacks(c, d, T, args[k], v.fields[k])
      {
        RestrictFieldLacks(c, d, T, args[k], v.fields[k]);
      }
      SameLacks(c, d, T, args, v.fields, r.fields);
    }
  }

  lemma {:induction false} RestrictFieldLacks(c: char, d: nat, T: Types, sp: Spec, v: Value)
    ensures FieldLacks(c, d, T, sp, RestrictField(d, T, sp, v)) <==> FieldLacks(c, d, T, sp, v)
    decreases d, 1
  {
    if IsList(sp) && v.List? {
      var r := RestrictField(d, T, sp, v);
      assert r.List? && |r.items| == |v.items|;
      forall i | 0 <= i < |v.items|
        ensures TypeLacks(c, d, T, sp.fmt, r.items[i]) <==> TypeLacks(c, d, T, sp.fmt, v.items[i])
      {
        assert r.items[i] == RestrictType(d, T, sp.fmt, v.items[i]);
        RestrictTypeLacks(c, d, T, sp.fmt, v.items[i]);
      }
    } else {
      RestrictTypeLacks(c, d, T, sp.fmt, v);
    }
  }

  // One level of TypeLacks and of RestrictType, at a user type.
  lemma NestedLacks(c: char, d: nat, T: Types, fmt: string, v: Value, r: Value)
    requires !Internal(fmt) && fmt in T && d > 0
    requires Lacks(c, d - 1, T, T[fmt], r) <==> Lacks(c, d - 1, T, T[fmt], v)
    ensures TypeLacks(c, d, T, fmt, r) <==> TypeLacks(c, d, T, fmt, v)
  {
  }

  lemma NestedRestrict(d: nat, T: Types, fmt: string, v: Value)
    ensures RestrictType(d, T, fmt, v) ==
            if !Internal(fmt) && fmt in T && d > 0 then Restrict(d - 1, T, T[fmt], v) else v
  {
  }

  lemma {:induction false} RestrictTypeLacks(c: char, d: nat, T: Types, fmt: string, v: Value)
    ensures TypeLacks(c, d, T, fmt, RestrictType(d, T, fmt, v)) <==> TypeLacks(c, d, T, fmt, v)
    decreases d, 0
  {
    NestedRestrict(d, T, fmt, v);
    if !Internal(fmt) && fmt in T && d > 0 {
      RestrictLacks(c, d - 1, T, T[fmt], v);
      NestedLacks(c, d, T, fmt, v, RestrictType(d, T, fmt, v));
    }
  }

  // What unpack reads lacks ',' and ';' wherever the text does.

  lemma KeyLacks(kv: string, c: char)
    requires c !in kv
    ensures c !in KeyOf(kv) && c !in TextOf(kv)
  {
  }

  lemma KeyLacksColon(kv: string)
    ensures KV_SEP !in KeyOf(kv)
  {
    FindFirst(kv, KV_SEP);
  }

  lemma {:induction false} StrDictLacks(kvs: seq<string>, n: nat, c: char)
    requires n <= |kvs| && forall i :: 0 <= i < n ==> c !in kvs[i]
    ensures forall k :: k in StrDict(kvs, n) ==> c !in k && c !in StrDict(kvs, n)[k] && KV_SEP !in k
  {
    if n > 0 {
      StrDictLacks(kvs, n - 1, c);
      KeyLacks(kvs[n - 1], c);
      KeyLacksColon(kvs[n - 1]);
    }
  }

  lemma DictLacks(s: string, c: char)
    requires c == DICT_SEP || c !in s
    ensures forall k :: k in Dict(s) ==> c !in k && c !in Dict(s)[k] && KV_SEP !in k
  {
    SplitLacks(s, DICT_SEP, c);
    StrDictLacks(Split(s, DICT_SEP), |Split(s, DICT_SEP)|, c);
  }

  lemma StrDictOfOne(kv: string)
    ensures StrDict([kv], 1) == map[KeyOf(kv) := TextOf(kv)]
  {
    assert StrDict([kv], 0) == map[];
  }

  lemma DictOfOne(s: string)
    requires DICT_SEP !in s
    ensures Dict(s) == map[KeyOf(s) := TextOf(s)]
  {
    SplitOfOne(s, DICT_SEP);
    StrDictOfOne(s);
  }

  lemma TextOfInt(n: int)
    ensures DICT_SEP !in Text(n) && LIST_SEP !in Text(n)
  {
  }

  lemma AtMostOne(a: set<string>, x: string)
    requires a <= {x}
    ensures |a| <= 1
  {
    if x in a {
      assert a == {x};
    } else {
      assert a == {};
    }
  }

  lemma {:induction false} ReadLacks(c: char, d: nat, T: Types, args: Args, s: string)
    requires c == DICT_SEP || c == LIST_SEP
    requires c !in s && ReadRecord(d, T, args, s).Some?
    ensures Lacks(c, d, T, args, ReadRecord(d, T, args, s).value)
    decreases d, 2
  {
    var dict, r := Dict(s), ReadRecord(d, T, args, s).value;
    DictLacks(s, c);
    forall k | k in r.fields ensures c !in k && FieldLacks(c, d, T, args[k], r.fields[k]) {
      ReadFieldLacks(c, d, T, args[k], dict[k]);
    }
    if c == DICT_SEP {
      DictOfOne(s);
      AtMostOne(r.fields.Keys * args.Keys, KeyOf(s));
    }
  }

  lemma {:induction false} ReadFieldLacks(c: char, d: nat, T: Types, sp: Spec, s: string)
    requires c == DICT_SEP || c == LIST_SEP
    requires c !in s && ReadField(d, T, sp, s).Some?
    ensures FieldLacks(c, d, T, sp, ReadField(d, T, sp, s).value)
    decreases d, 1
  {
    if IsList(sp) {
      var parts, r := Split(s, LIST_SEP), ReadField(d, T, sp, s).value;
      SplitLacks(s, LIST_SEP, c);
      if c == LIST_SEP {
        SplitOfOne(s, LIST_SEP);
      }
      forall i | 0 <= i < |parts| ensures TypeLacks(c, d, T, sp.fmt, r.items[i]) {
        ReadTypeLacks(c, d, T, sp.fmt, parts[i]);
      }
    } else {
      ReadTypeLacks(c, d, T, sp.fmt, s);
    }
  }

  lemma {:induction false} ReadTypeLacks(c: char, d: nat, T: Types, fmt: string, s: string)
    requires c == DICT_SEP || c == LIST_SEP
    requires c !in s && ReadType(d, T, fmt, s).Some?
    ensures TypeLacks(c, d, T, fmt, ReadType(d, T, fmt, s).value)
    decreases d, 0
  {
    var r := ReadType(d, T, fmt, s).value;
    if !Internal(fmt) {
      ReadLacks(c, d - 1, T, T[fmt], s);
    } else if r.Int? {
      TextOfInt(r.n);
    }
  }

  // Reading a tidy text: each field is read from its own text.

  lemma PairRead(key: string, text: string)
    requires KV_SEP !in key
    ensures KeyOf(Pair(key, text)) == key && TextOf(Pair(key, text)) == text
  {
    FindIs(key, KV_SEP, text);
  }

  // The dict of the first n keys and their texts.
  function Zip(keys: seq<string>, texts: seq<string>, n: nat): map<string, string>
    requires n <= |keys| == |texts|
  {
    if n == 0 then map[] else Zip(keys, texts, n - 1)[keys[n - 1] := texts[n - 1]]
  }

  lemma {:induction false} ZipKeys(keys: seq<string>, texts: seq<string>, n: nat, k: string)
    requires n <= |keys| == |texts| && k in Zip(keys, texts, n)
    ensures k in keys[..n]
  {
    if k == keys[n - 1] {
      assert keys[..n][n - 1] == k;
    } else {
      ZipKeys(keys, texts, n - 1, k);
      assert keys[..n] == keys[..n - 1] + [keys[n - 1]];
    }
  }

  lemma {:induction false} ZipAt(keys: seq<string>, texts: seq<string>, n: nat, i: nat)
    requires i < n <= |keys| == |texts|
    requires forall i, j :: 0 <= i < j < |keys| ==> keys[i] != keys[j]
    ensures keys[i] in Zip(keys, texts, n) && Zip(keys, texts, n)[keys[i]] == texts[i]
  {
    if i < n - 1 {
      assert keys[i] != keys[n - 1];
      ZipAt(keys, texts, n - 1, i);
    }
  }

  lemma PairsDict(keys: seq<string>, texts: seq<string>, n: nat)
    requires n < |keys| == |texts| && KV_SEP !in keys[n]
    ensures StrDict(Pairs(keys, texts), n + 1) == StrDict(Pairs(keys, texts), n)[keys[n] := texts[n]]
  {
    PairRead(keys[n], texts[n]);
  }

  lemma {:induction false} PairsRead(keys: seq<string>, texts: seq<string>, n: nat)
    requires n <= |keys| == |texts| && forall i :: 0 <= i < |keys| ==> KV_SEP !in keys[i]
    ensures StrDict(Pairs(keys, texts), n) == Zip(keys, texts, n)
  {
    if n > 0 {
      PairsRead(keys, texts, n - 1);
      PairsDict(keys, texts, n - 1);
    }
  }

  lemma DictOfTidy(d: nat, T: Types, args: Args, m: map<string, Value>, keys: seq<string>, texts: seq<string>)
    requires LaidOut(d, T, args, m, keys, texts) && Tidy(d, T, args, m) && keys != []
    ensures Dict(Join(Pairs(keys, texts), DICT_SEP)) == Zip(keys, texts, |keys|)
  {
    var pairs := Pairs(keys, texts);
    forall i | 0 <= i < |keys| ensures DICT_SEP !in pairs[i] && KV_SEP !in keys[i] {
      assert keys[i] in m.Keys * args.Keys;
      FieldTextLacks(DICT_SEP, d, T, args[keys[i]], m[keys[i]], texts[i]);
      PairHolds(keys[i], texts[i], DICT_SEP);
    }
    SplitOfJoin(pairs, DICT_SEP);
    PairsRead(keys, texts, |keys|);
  }

  lemma DictOfNothing()
    ensures Dict("") == map["" := ""]
  {
    DictOfOne("");
  }

  lemma ZipKeysAre(keys: seq<string>, texts: seq<string>, ks: set<string>)
    requires Orders(keys, ks) && |texts| == |keys|
    ensures Zip(keys, texts, |keys|).Keys == ks
  {
    var z := Zip(keys, texts, |keys|);
    forall k ensures k in z <==> k in ks {
      if k in z {
        ZipKeys(keys, texts, |keys|, k);
      }
      if k in ks {
        var i :| 0 <= i < |keys| && keys[i] == k;
        ZipAt(keys, texts, |keys|, i);
      }
    }
  }

  // Whether the field behind keys[i] comes back from its own text.
  ghost predicate FieldBack(d: nat, T: Types, args: Args, m: map<string, Value>, keys: seq<string>,
      texts: seq<string>, i: nat)
    requires i < |keys| == |texts| && keys[i] in m && keys[i] in args
  {
    ReadField(d, T, args[keys[i]], texts[i]) == Some(RestrictField(d, T, args[keys[i]], m[keys[i]]))
  }

  lemma FieldsBackRecordBack(d: nat, T: Types, args: Args, m: map<string, Value>, keys: seq<string>,
      texts: seq<string>)
    requires LaidOut(d, T, args, m, keys, texts) && Tidy(d, T, args, m)
    requires forall i :: 0 <= i < |keys| ==> FieldBack(d, T, args, m, keys, texts, i)
    ensures ReadRecord(d, T, args, Join(Pairs(keys, texts), DICT_SEP)) == Some(Restrict(d, T, args, Record(m)))
  {
    var s, r, ks := Join(Pairs(keys, texts), DICT_SEP), Restrict(d, T, args, Record(m)).fields, m.Keys * args.Keys;
    assert r.Keys == ks;
    if keys == [] {
      OrdersSize(keys, ks);
      DictOfNothing();
      assert ks == {};
    } else {
      DictOfTidy(d, T, args, m, keys, texts);
      ZipKeysAre(keys, texts, ks);
      forall k | k in r ensures ReadField(d, T, args[k], Dict(s)[k]) == Some(r[k]) {
        var i :| 0 <= i < |keys| && keys[i] == k;
        ZipAt(keys, texts, |keys|, i);
        assert FieldBack(d, T, args, m, keys, texts, i);
      }
    }
    ReadFieldsIs(d, T, args, Dict(s), r);
  }

  // What a record that has been read says of one of its fields.
  lemma ReadAt(d: nat, T: Types, args: Args, dict: map<string, string>, r: map<string, Value>, k: string)
    requires ReadFields(d, T, args, dict) == Some(Record(r))
    ensures r.Keys == dict.Keys * args.Keys
    ensures k in r ==> ReadField(d, T, args[k], dict[k]) == Some(r[k])
  {
  }

  // What a restricted record says of one of its fields.
  lemma RestrictAt(d: nat, T: Types, args: Args, m: map<string, Value>, k: string)
    ensures var r := Restrict(d, T, args, Record(m));
      && r.Record? && r.fields.Keys == m.Keys * args.Keys
      && (k in r.fields ==> r.fields[k] == RestrictField(d, T, args[k], m[k]))
  {
  }

  // A record that comes back has read each of its fields, under its own name, as what it was.
  lemma BackAt(d: nat, T: Types, args: Args, m: map<string, Value>, dict: map<string, string>, k: string)
    requires ReadFields(d, T, args, dict) == Some(Restrict(d, T, args, Record(m)))
    ensures dict.Keys * args.Keys == m.Keys * args.Keys
    ensures k in m && k in args ==>
      k in dict && ReadField(d, T, args[k], dict[k]) == Some(RestrictField(d, T, args[k], m[k]))
  {
    RestrictAt(d, T, args, m, k);
    ReadAt(d, T, args, dict, Restrict(d, T, args, Record(m)).fields, k);
    if k in m && k in args {
      assert k in m.Keys * args.Keys;
    }
  }

  lemma RecordBackFieldBack(d: nat, T: Types, args: Args, m: map<string, Value>, keys: seq<string>,
      texts: seq<string>, i: nat)
    requires LaidOut(d, T, args, m, keys, texts) && Tidy(d, T, args, m) && i < |keys|
    requires ReadRecord(d, T, args, Join(Pairs(keys, texts), DICT_SEP)) == Some(Restrict(d, T, args, Record(m)))
    ensures FieldBack(d, T, args, m, keys, texts, i)
  {
    DictOfTidy(d, T, args, m, keys, texts);
    ZipAt(keys, texts, |keys|, i);
    BackAt(d, T, args, m, Zip(keys, texts, |keys|), keys[i]);
  }

  // The text of an empty record reads as one pair of empty name.
  lemma EmptyBackTidy(d: nat, T: Types, args: Args, m: map<string, Value>)
    ensures ReadRecord(d, T, args, "") == Some(Restrict(d, T, args, Record(m))) && m.Keys * args.Keys == {} ==>
      "" !in args
  {
    if ReadRecord(d, T, args, "") == Some(Restrict(d, T, args, Record(m))) && m.Keys * args.Keys == {} {
      DictOfNothing();
      BackAt(d, T, args, m, Dict(""), "");
      assert "" in Dict("");
      assert "" in args ==> "" in Dict("").Keys * args.Keys;
    }
  }

  lemma FieldBackTidy(d: nat, T: Types, args: Args, m: map<string, Value>, s: string, k: string)
    requires ReadRecord(d, T, args, s) == Some(Restrict(d, T, args, Record(m))) && k in m && k in args
    ensures KV_SEP !in k && DICT_SEP !in k && FieldLacks(DICT_SEP, d, T, args[k], m[k])
  {
    BackAt(d, T, args, m, Dict(s), k);
    DictLacks(s, DICT_SEP);
    ReadFieldLacks(DICT_SEP, d, T, args[k], Dict(s)[k]);
    RestrictFieldLacks(DICT_SEP, d, T, args[k], m[k]);
  }

  // A record that comes back is tidy; an empty one has the empty text.
  lemma RecordBackTidy(d: nat, T: Types, args: Args, m: map<string, Value>, s: string)
    requires ReadRecord(d, T, args, s) == Some(Restrict(d, T, args, Record(m)))
    requires m.Keys * args.Keys == {} ==> s == ""
    ensures Tidy(d, T, args, m)
  {
    if m.Keys * args.Keys == {} {
      EmptyBackTidy(d, T, args, m);
    }
    forall k | k in m && k in args
      ensures KV_SEP !in k && DICT_SEP !in k && FieldLacks(DICT_SEP, d, T, args[k], m[k])
    {
      FieldBackTidy(d, T, args, m, s, k);
    }
  }

  lemma EmptyText(d: nat, T: Types, args: Args, m: map<string, Value>, keys: seq<string>, texts: seq<string>)
    requires LaidOut(d, T, args, m, keys, texts)
    ensures m.Keys * args.Keys == {} ==> Join(Pairs(keys, texts), DICT_SEP) == ""
  {
    OrdersSize(keys, m.Keys * args.Keys);
  }

  // The same for lists.

  ghost predicate ItemBack(d: nat, T: Types, fmt: string, items: seq<Value>, texts: seq<string>, i: nat)
    requires i < |items| == |texts|
  {
    ReadType(d, T, fmt, texts[i]) == Some(RestrictType(d, T, fmt, items[i]))
  }

  function RestrictItems(d: nat, T: Types, fmt: string, items: seq<Value>): Value {
    List(seq(|items|, i requires 0 <= i < |items| => RestrictType(d, T, fmt, items[i])))
  }

  lemma PartsOfTidy(d: nat, T: Types, fmt: string, items: seq<Value>, texts: seq<string>)
    requires ItemsPack(d, T, fmt, items, texts) && TidyItems(d, T, fmt, items)
    ensures Split(Join(texts, LIST_SEP), LIST_SEP) == texts
  {
    forall i | 0 <= i < |texts| ensures LIST_SEP !in texts[i] {
      TypeTextLacks(LIST_SEP, d, T, fmt, items[i], texts[i]);
    }
    SplitOfJoin(texts, LIST_SEP);
  }

  lemma ItemsBackListBack(d: nat, T: Types, fmt: string, items: seq<Value>, texts: seq<string>)
    requires |items| == |texts|
    requires forall i :: 0 <= i < |items| ==> ItemBack(d, T, fmt, items, texts, i)
    ensures ReadItems(d, T, fmt, texts) == Some(RestrictItems(d, T, fmt, items))
  {
    forall i | 0 <= i < |items|
      ensures ReadType(d, T, fmt, texts[i]) == Some(RestrictItems(d, T, fmt, items).items[i])
    {
      assert ItemBack(d, T, fmt, items, texts, i);
    }
    ReadItemsIs(d, T, fmt, texts, RestrictItems(d, T, fmt, items).items);
  }

  lemma ListBackItemBack(d: nat, T: Types, fmt: string, items: seq<Value>, texts: seq<string>, i: nat)
    requires i < |items| == |texts| && ReadItems(d, T, fmt, texts) == Some(RestrictItems(d, T, fmt, items))
    ensures ItemBack(d, T, fmt, items, texts, i)
  {
    var r := RestrictItems(d, T, fmt, items);
    assert r.items[i] == ReadType(d, T, fmt, texts[i]).value;
  }

  // A list that comes back is tidy.
  lemma ListBackTidy(d: nat, T: Types, fmt: string, items: seq<Value>, s: string)
    requires ReadItems(d, T, fmt, Split(s, LIST_SEP)) == Some(RestrictItems(d, T, fmt, items))
    ensures TidyItems(d, T, fmt, items)
  {
    var parts, r := Split(s, LIST_SEP), RestrictItems(d, T, fmt, items);
    assert |r.items| == |parts|;
    SplitLacks(s, LIST_SEP, LIST_SEP);
    forall i | 0 <= i < |items| ensures TypeLacks(LIST_SEP, d, T, fmt, items[i]) {
      assert r.items[i] == ReadType(d, T, fmt, parts[i]).value;
      ReadTypeLacks(LIST_SEP, d, T, fmt, parts[i]);
      RestrictTypeLacks(LIST_SEP, d, T, fmt, items[i]);
    }
  }

  // The round trip: whatever text pack makes of a value, in whatever order it meets its dicts, unpack gives
  // back the value, restricted to the declared fields, exactly when the value is clean.
  lemma {:induction false} RoundTrip(d: nat, T: Types, args: Args, v: Value, s: string)
    requires RecordPacks(d, T, args, v, s)
    ensures ReadRecord(d, T, args, s) == Some(Restrict(d, T, args, v)) <==> Clean(d, T, args, v)
    decreases d, 4
  {
    if v.Record? {
      var keys: seq<string>, texts: seq<string> :|
        LaidOut(d, T, args, v.fields, keys, texts) && s == Join(Pairs(keys, texts), DICT_SEP);
      RecordRoundTrip(d, T, args, v.fields, keys, texts);
    }
  }

  lemma {:induction false} RecordRoundTrip(d: nat, T: Types, args: Args, m: map<string, Value>,
      keys: seq<string>, texts: seq<string>)
    requires LaidOut(d, T, args, m, keys, texts)
    ensures ReadRecord(d, T, args, Join(Pairs(keys, texts), DICT_SEP)) == Some(Restrict(d, T, args, Record(m)))
            <==> Clean(d, T, args, Record(m))
    decreases d, 3
  {
    var back := ReadRecord(d, T, args, Join(Pairs(keys, texts), DICT_SEP)) ==
      Some(Restrict(d, T, args, Record(m)));
    forall i | 0 <= i < |keys|
      ensures FieldBack(d, T, args, m, keys, texts, i) <==> FieldClean(d, T, args[keys[i]], m[keys[i]])
    {
      FieldRoundTrip(d, T, args[keys[i]], m[keys[i]], texts[i]);
    }
    if back {
      EmptyText(d, T, args, m, keys, texts);
      RecordBackTidy(d, T, args, m, Join(Pairs(keys, texts), DICT_SEP));
      forall k | k in m && k in args ensures FieldClean(d, T, args[k], m[k]) {
        assert k in m.Keys * args.Keys;
        var i :| 0 <= i < |keys| && keys[i] == k;
        RecordBackFieldBack(d, T, args, m, keys, texts, i);
      }
    }
    if Clean(d, T, args, Record(m)) {
      FieldsBackRecordBack(d, T, args, m, keys, texts);
    }
  }

  lemma {:induction false} FieldRoundTrip(d: nat, T: Types, sp: Spec, v: Value, s: string)
    requires FieldPacks(d, T, sp, v, s)
    ensures ReadField(d, T, sp, s) == Some(RestrictField(d, T, sp, v)) <==> FieldClean(d, T, sp, v)
    decreases d, 2
  {
    if IsList(sp) {
      var texts: seq<string> :| ItemsPack(d, T, sp.fmt, v.items, texts) && s == Join(texts, LIST_SEP);
      ListRoundTrip(d, T, sp.fmt, v.items, texts);
      assert RestrictField(d, T, sp, v) == RestrictItems(d, T, sp.fmt, v.items);
    } else {
      TypeRoundTrip(d, T, sp.fmt, v, s);
    }
  }

  lemma {:induction false} ListRoundTrip(d: nat, T: Types, fmt: string, items: seq<Value>, texts: seq<string>)
    requires ItemsPack(d, T, fmt, items, texts)
    ensures ReadItems(d, T, fmt, Split(Join(texts, LIST_SEP), LIST_SEP)) == Some(RestrictItems(d, T, fmt, items))
            <==> TidyItems(d, T, fmt, items) &&
                 forall i :: 0 <= i < |items| ==> TypeClean(d, T, fmt, items[i])
    decreases d, 1
  {
    var s := Join(texts, LIST_SEP);
    forall i | 0 <= i < |items| ensures ItemBack(d, T, fmt, items, texts, i) <==> TypeClean(d, T, fmt, items[i]) {
      TypeRoundTrip(d, T, fmt, items[i], texts[i]);
    }
    if ReadItems(d, T, fmt, Split(s, LIST_SEP)) == Some(RestrictItems(d, T, fmt, items)) {
      ListBackTidy(d, T, fmt, items, s);
      PartsOfTidy(d, T, fmt, items, texts);
      forall i | 0 <= i < |items| ensures TypeClean(d, T, fmt, items[i]) {
        ListBackItemBack(d, T, fmt, items, texts, i);
      }
    }
    if TidyItems(d, T, fmt, items) && forall i :: 0 <= i < |items| ==> TypeClean(d, T, fmt, items[i]) {
      PartsOfTidy(d, T, fmt, items, texts);
      ItemsBackListBack(d, T, fmt, items, texts);
    }
  }

  lemma InternalRoundTrip(d: nat, T: Types, fmt: string, v: Value, s: string)
    requires Internal(fmt) && TypePacks(d, T, fmt, v, s)
    ensures ReadType(d, T, fmt, s) == Some(v)
  {
    if v.Int? {
      ParseOfText(v.n);
    }
  }

  lemma NestedRead(d: nat, T: Types, fmt: string, s: string)
    requires !Internal(fmt) && fmt in T && d > 0
    ensures ReadType(d, T, fmt, s) == ReadRecord(d - 1, T, T[fmt], s)
  {
  }

  lemma {:induction false} TypeRoundTrip(d: nat, T: Types, fmt: string, v: Value, s: string)
    requires TypePacks(d, T, fmt, v, s)
    ensures ReadType(d, T, fmt, s) == Some(RestrictType(d, T, fmt, v)) <==> TypeClean(d, T, fmt, v)
    decreases d, 0
  {
    NestedRestrict(d, T, fmt, v);
    if Internal(fmt) {
      InternalRoundTrip(d, T, fmt, v, s);
    } else {
      NestedRead(d, T, fmt, s);
      RoundTrip(d - 1, T, T[fmt], v, s);
    }
  }

  // The message, id + '@' + text, and its way back through split('@').

  const ID_SEP := '@'

  function Message(id: string, s: string): string {
    id + [ID_SEP] + s
  }

  // A receiver that expects two parts gets the id and the text exactly when neither holds an '@'.
  lemma MessageSplits(id: string, d: nat, T: Types, args: Args, v: Value, s: string)
    requires RecordPacks(d, T, args, v, s)
    ensures Message(id, s) == id + "@" + s
    ensures Split(Message(id, s), '@') == [id, s] <==> '@' !in id && Lacks(ID_SEP, d, T, args, v)
  {
    var parts := [id, s];
    TextLacks(ID_SEP, d, T, args, v, s);
    assert Message(id, s) == Join(parts, ID_SEP);
    SplitLacks(Message(id, s), ID_SEP, ID_SEP);
    if ID_SEP !in id && ID_SEP !in s {
      SplitOfJoin(parts, ID_SEP);
    }
    if Split(Message(id, s), ID_SEP) == parts {
      assert Split(Message(id, s), ID_SEP)[0] == id && Split(Message(id, s), ID_SEP)[1] == s;
    }
  }

  // The depth of the stack does not matter, once it suffices.

  lemma {:induction false} DeeperPacks(d: nat, T: Types, args: Args, v: Value, s: string)
    requires RecordPacks(d, T, args, v, s)
    ensures RecordPacks(d + 1, T, args, v, s)
    decreases d, 2
  {
    if v.Record? {
      var m := v.fields;
      var keys: seq<string>, texts: seq<string> :|
        LaidOut(d, T, args, m, keys, texts) && s == Join(Pairs(keys, texts), DICT_SEP);
      forall i | 0 <= i < |keys| ensures FieldPacks(d + 1, T, args[keys[i]], m[keys[i]], texts[i]) {
        DeeperFieldPacks(d, T, args[keys[i]], m[keys[i]], texts[i]);
      }
      assert LaidOut(d + 1, T, args, m, keys, texts);
    }
  }

  lemma {:induction false} DeeperFieldPacks(d: nat, T: Types, sp: Spec, v: Value, s: string)
    requires FieldPacks(d, T, sp, v, s)
    ensures FieldPacks(d + 1, T, sp, v, s)
    decreases d, 1
  {
    if IsList(sp) {
      var texts: seq<string> :| ItemsPack(d, T, sp.fmt, v.items, texts) && s == Join(texts, LIST_SEP);
      forall i | 0 <= i < |texts| ensures TypePacks(d + 1, T, sp.fmt, v.items[i], texts[i]) {
        DeeperTypePacks(d, T, sp.fmt, v.items[i], texts[i]);
      }
      assert ItemsPack(d + 1, T, sp.fmt, v.items, texts);
    } else {
      DeeperTypePacks(d, T, sp.fmt, v, s);
    }
  }

  lemma {:induction false} DeeperTypePacks(d: nat, T: Types, fmt: string, v: Value, s: string)
    requires TypePacks(d, T, fmt, v, s)
    ensures TypePacks(d + 1, T, fmt, v, s)
    decreases d, 0
  {
    if !Internal(fmt) {
      DeeperPacks(d - 1, T, T[fmt], v, s);
    }
  }

  lemma {:induction false} DeeperReads(d: nat, T: Types, args: Args, s: string)
    requires ReadRecord(d, T, args, s).Some?
    ensures ReadRecord(d + 1, T, args, s) == ReadRecord(d, T, args, s)
    decreases d, 2
  {
    var dict, r := Dict(s), ReadRecord(d, T, args, s).value.fields;
    forall k | k in r ensures ReadField(d + 1, T, args[k], dict[k]) == Some(r[k]) {
      ReadAt(d, T, args, dict, r, k);
      DeeperReadsField(d, T, args[k], dict[k]);
    }
    ReadFieldsIs(d + 1, T, args, dict, r);
  }

  lemma {:induction false} DeeperReadsField(d: nat, T: Types, sp: Spec, s: string)
    requires ReadField(d, T, sp, s).Some?
    ensures ReadField(d + 1, T, sp, s) == ReadField(d, T, sp, s)
    decreases d, 1
  {
    if IsList(sp) {
      var parts, r := Split(s, LIST_SEP), ReadField(d, T, sp, s).value;
      forall i | 0 <= i < |parts| ensures ReadType(d + 1, T, sp.fmt, parts[i]) == Some(r.items[i]) {
        DeeperReadsType(d, T, sp.fmt, parts[i]);
      }
      ReadItemsIs(d + 1, T, sp.fmt, parts, r.items);
    } else {
      DeeperReadsType(d, T, sp.fmt, s);
    }
  }

  lemma {:induction false} DeeperReadsType(d: nat, T: Types, fmt: string, s: string)
    requires ReadType(d, T, fmt, s).Some?
    ensures ReadType(d + 1, T, fmt, s) == ReadType(d, T, fmt, s)
    decreases d, 0
  {
    if !Internal(fmt) {
      DeeperReads(d - 1, T, T[fmt], s);
    }
  }

  // So whatever the depth at which a clean value was packed, every deeper unpack gives it back.
  lemma {:induction false} RoundTripDeeper(d: nat, e: nat, T: Types, args: Args, v: Value, s: string)
    requires RecordPacks(d, T, args, v, s) && Clean(d, T, args, v) && d <= e
    ensures ReadRecord(e, T, args, s) == Some(Restrict(d, T, args, v))
    decreases e - d
  {
    if e == d {
      RoundTrip(d, T, args, v, s);
    } else {
      RoundTripDeeper(d, e - 1, T, args, v, s);
      DeeperReads(e - 1, T, args, s);
    }
  }
}
