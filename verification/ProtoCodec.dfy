/** The packer and the unpacker of py_proto/proto.py. */
module ProtoCodec {
  import opened Basics
  import opened Decimal
  import opened ProtoText

  // Data that pack takes and unpack returns. `float` data is left out.
  datatype Value =
    | Int(n: int)
    | Str(s: string)
    | List(items: seq<Value>)
    | Record(fields: map<string, Value>)

  // One entry of a params table: a format, and what else the tuple holds.
  datatype Spec = Spec(fmt: string, extra: seq<int>)

  type Args = map<string, Spec>

  type Types = map<string, Args>  // USER_DEFINED

  const LIST_SEP := ';'
  const DICT_SEP := ','
  const KV_SEP := ':'

  predicate IsList(sp: Spec) {
    |sp.extra| == 1 && sp.extra[0] == 0
  }

  // __is_internal_type
  predicate Internal(fmt: string) {
    fmt == "int" || fmt == "float" || fmt == "str"
  }

  // The keys of a dict, in the order in which a loop over it meets them.
  ghost predicate Orders(keys: seq<string>, ks: set<string>) {
    && (forall i, j :: 0 <= i < j < |keys| ==> keys[i] != keys[j])
    && (forall i :: 0 <= i < |keys| ==> keys[i] in ks)
    && (forall k <- ks :: exists i :: 0 <= i < |keys| && keys[i] == k)
  }

  // The texts a value packs to. A dict is met in any order, so there may be many; where there is none, pack
  // raises an exception. `d` is how many records deep the interpreter's stack still reaches.

  function Pair(key: string, text: string): string {
    key + [KV_SEP] + text
  }

  function Pairs(keys: seq<string>, texts: seq<string>): seq<string>
    requires |keys| == |texts|
  {
    seq(|keys|, i requires 0 <= i < |keys| => Pair(keys[i], texts[i]))
  }

  // __pack. Data that is no dict is looped over as well: one that holds no declared name packs to nothing.
  ghost predicate RecordPacks(d: nat, T: Types, args: Args, v: Value, s: string)
    decreases d, 4
  {
    match v
    case Int(_) => false
    case Str(t) => s == "" && forall k :: 0 <= k < |t| ==> [t[k]] !in args
    case List(items) =>
      s == "" && forall k :: 0 <= k < |items| ==> items[k].Int? || (items[k].Str? && items[k].s !in args)
    case Record(m) =>
      exists keys: seq<string>, texts: seq<string> ::
        LaidOut(d, T, args, m, keys, texts) && s == Join(Pairs(keys, texts), DICT_SEP)
  }

  ghost predicate LaidOut(d: nat, T: Types, args: Args, m: map<string, Value>, keys: seq<string>,
      texts: seq<string>)
    decreases d, 3
  {
    && Orders(keys, m.Keys * args.Keys) && |texts| == |keys|
    && forall i :: 0 <= i < |keys| ==> FieldPacks(d, T, args[keys[i]], m[keys[i]], texts[i])
  }

  ghost predicate FieldPacks(d: nat, T: Types, sp: Spec, v: Value, s: string)
    decreases d, 2
  {
    if !IsList(sp) then TypePacks(d, T, sp.fmt, v, s)
    else v.List? && exists texts: seq<string> ::
      ItemsPack(d, T, sp.fmt, v.items, texts) && s == Join(texts, LIST_SEP)
  }

  // __list2str
  ghost predicate ItemsPack(d: nat, T: Types, fmt: string, items: seq<Value>, texts: seq<string>)
    decreases d, 1
  {
    |texts| == |items| && forall i :: 0 <= i < |items| ==> TypePacks(d, T, fmt, items[i], texts[i])
  }

  // __type2str
  ghost predicate TypePacks(d: nat, T: Types, fmt: string, v: Value, s: string)
    decreases d, 0
  {
    if Internal(fmt) then
      (fmt == "int" && v.Int? && s == Text(v.n)) || (fmt == "str" && v.Str? && s == v.s)
    else fmt in T && d > 0 && RecordPacks(d - 1, T, T[fmt], v, s)
  }

  // What unpack reads; None is an exception.

  // Without a colon, str.find is -1: the key is all but the last character, the value all of the text.
  function KeyOf(kv: string): string {
    var i := Find(kv, KV_SEP);
    if i >= 0 then kv[..i] else if kv == "" then "" else kv[..|kv| - 1]
  }

  function TextOf(kv: string): string {
    kv[Find(kv, KV_SEP) + 1..]
  }

  // __str2strdict, for the first n pairs: a later pair replaces an earlier one of the same key.
  function StrDict(kvs: seq<string>, n: nat): map<string, string>
    requires n <= |kvs|
  {
    if n == 0 then map[] else StrDict(kvs, n - 1)[KeyOf(kvs[n - 1]) := TextOf(kvs[n - 1])]
  }

  function Dict(s: string): map<string, string> {
    var kvs := Split(s, DICT_SEP);
    StrDict(kvs, |kvs|)
  }

  // __unpack
  function ReadRecord(d: nat, T: Types, args: Args, s: string): Option<Value>
    decreases d, 4
  {
    ReadFields(d, T, args, Dict(s))
  }

  function ReadFields(d: nat, T: Types, args: Args, dict: map<string, string>): Option<Value>
    decreases d, 3
  {
    if forall k :: k in dict && k in args ==> ReadField(d, T, args[k], dict[k]).Some? then
      Some(Record(map k | k in dict && k in args :: ReadField(d, T, args[k], dict[k]).value))
    else None
  }

  function ReadField(d: nat, T: Types, sp: Spec, s: string): Option<Value>
    decreases d, 2
  {
    if IsList(sp) then ReadItems(d, T, sp.fmt, Split(s, LIST_SEP)) else ReadType(d, T, sp.fmt, s)
  }

  // __str2list
  function ReadItems(d: nat, T: Types, fmt: string, parts: seq<string>): Option<Value>
    decreases d, 1
  {
    if forall i :: 0 <= i < |parts| ==> ReadType(d, T, fmt, parts[i]).Some? then
      Some(List(seq(|parts|, i requires 0 <= i < |parts| => ReadType(d, T, fmt, parts[i]).value)))
    else None
  }

  function IntValue(r: Option<int>): Option<Value> {
    if r.Some? then Some(Int(r.value)) else None
  }

  // __str2type. A float is read as a long.
  function ReadType(d: nat, T: Types, fmt: string, s: string): Option<Value>
    decreases d, 0
  {
    if fmt == "int" then IntValue(ParseInt(s))
    else if fmt == "float" then IntValue(ParseLong(s))
    else if fmt == "str" then Some(Str(s))
    else if fmt in T && d > 0 then ReadRecord(d - 1, T, T[fmt], s)
    else None
  }

  // Packing, as written.

  // __strdict2str
  method StrDict2Str(dct: map<string, string>) returns (s: string, ghost keys: seq<string>)
    ensures Orders(keys, dct.Keys)
    ensures s == Join(Pairs(keys, seq(|keys|, i requires 0 <= i < |keys| => dct[keys[i]])), DICT_SEP)
  {
    var tmpLst: seq<string> := [];
    keys := [];
    var rest := dct.Keys;
    while rest != {}
      invariant rest <= dct.Keys && Orders(keys, dct.Keys - rest)
      invariant tmpLst == Pairs(keys, seq(|keys|, i requires 0 <= i < |keys| => dct[keys[i]]))
    {
      var k :| k in rest;
      OrdersMore(keys, dct.Keys - rest, k);
      assert dct.Keys - (rest - {k}) == (dct.Keys - rest) + {k};
      tmpLst := tmpLst + [Pair(k, dct[k])];
      keys := keys + [k];
      rest := rest - {k};
    }
    assert dct.Keys - rest == dct.Keys;
    s := Join(tmpLst, DICT_SEP);
  }

  lemma OrdersMore(keys: seq<string>, ks: set<string>, k: string)
    requires Orders(keys, ks) && k !in ks
    ensures Orders(keys + [k], ks + {k})
  {
    forall n | n in ks + {k} ensures exists i :: 0 <= i < |keys + [k]| && (keys + [k])[i] == n {
      if n == k {
        assert (keys + [k])[|keys|] == n;
      } else {
        var i :| 0 <= i < |keys| && keys[i] == n;
        assert (keys + [k])[i] == n;
      }
    }
  }

  // __pack
  method Pack(d: nat, T: Types, args: Args, dct: Value) returns (r: Option<string>)
    ensures r.Some? ==> RecordPacks(d, T, args, dct, r.value)
    ensures r.None? ==> forall s :: !RecordPacks(d, T, args, dct, s)
    decreases d, 3
  {
    match dct {
      case Int(_) => return None;
      case Str(t) =>
        for i := 0 to |t|
          invariant forall k :: 0 <= k < i ==> [t[k]] !in args
        {
          if [t[i]] in args {
            return None;
          }
        }
        return Some("");
      case List(items) =>
        for i := 0 to |items|
          invariant forall k :: 0 <= k < i ==> items[k].Int? || (items[k].Str? && items[k].s !in args)
        {
          if items[i].List? || items[i].Record? || (items[i].Str? && items[i].s in args) {
            return None;
          }
        }
        return Some("");
      case Record(m) =>
        r := PackFields(d, T, args, m);
    }
  }

  method PackFields(d: nat, T: Types, args: Args, dct: map<string, Value>) returns (r: Option<string>)
    ensures r.Some? ==> RecordPacks(d, T, args, Record(dct), r.value)
    ensures r.None? ==> forall s :: !RecordPacks(d, T, args, Record(dct), s)
    decreases d, 2
  {
    var strDct: map<string, string> := map[];
    var rest := dct.Keys;
    while rest != {}
      invariant rest <= dct.Keys && strDct.Keys == (dct.Keys - rest) * args.Keys
      invariant forall k :: k in strDct ==> FieldPacks(d, T, args[k], dct[k], strDct[k])
    {
      var k :| k in rest;
      rest := rest - {k};
      if k !in args {
        continue;
      }
      var val, fmt := dct[k], args[k].fmt;
      var text: Option<string>;
      if IsList(args[k]) {
        text := List2Str(d, T, fmt, val);
        assert args[k] == Spec(fmt, [0]);
      } else {
        text := Type2Str(d, T, fmt, val);
        assert forall s :: FieldPacks(d, T, args[k], val, s) <==> TypePacks(d, T, fmt, val, s);
      }
      if text.None? {
        NoFieldNoRecord(d, T, args, dct, k);
        return None;
      }
      strDct := strDct[k := text.value];
    }
    var s, keys := StrDict2Str(strDct);
    ghost var texts := seq(|keys|, i requires 0 <= i < |keys| => strDct[keys[i]]);
    assert strDct.Keys == dct.Keys * args.Keys;
    assert LaidOut(d, T, args, dct, keys, texts);
    return Some(s);
  }

  // The text of a field within the text of a record.
  lemma FieldOfRecord(d: nat, T: Types, args: Args, m: map<string, Value>, k: string, s: string)
      returns (text: string)
    requires k in m && k in args && RecordPacks(d, T, args, Record(m), s)
    ensures FieldPacks(d, T, args[k], m[k], text)
  {
    var keys: seq<string>, texts: seq<string> :|
      LaidOut(d, T, args, m, keys, texts) && s == Join(Pairs(keys, texts), DICT_SEP);
    assert k in m.Keys * args.Keys;
    var i :| 0 <= i < |keys| && keys[i] == k;
    text := texts[i];
  }

  lemma NoFieldNoRecord(d: nat, T: Types, args: Args, m: map<string, Value>, k: string)
    requires k in m && k in args && forall s :: !FieldPacks(d, T, args[k], m[k], s)
    ensures forall s :: !RecordPacks(d, T, args, Record(m), s)
  {
    forall s ensures !RecordPacks(d, T, args, Record(m), s) {
      if RecordPacks(d, T, args, Record(m), s) {
        var _ := FieldOfRecord(d, T, args, m, k, s);
      }
    }
  }

  // The text of an item within the text of a list.
  lemma ItemOfList(d: nat, T: Types, fmt: string, items: seq<Value>, i: nat, s: string) returns (text: string)
    requires i < |items| && FieldPacks(d, T, Spec(fmt, [0]), List(items), s)
    ensures TypePacks(d, T, fmt, items[i], text)
  {
    var texts: seq<string> :| ItemsPack(d, T, fmt, items, texts) && s == Join(texts, LIST_SEP);
    text := texts[i];
  }

  lemma NoItemNoList(d: nat, T: Types, fmt: string, items: seq<Value>, i: nat)
    requires i < |items| && forall s :: !TypePacks(d, T, fmt, items[i], s)
    ensures forall s :: !FieldPacks(d, T, Spec(fmt, [0]), List(items), s)
  {
    forall s ensures !FieldPacks(d, T, Spec(fmt, [0]), List(items), s) {
      if FieldPacks(d, T, Spec(fmt, [0]), List(items), s) {
        var _ := ItemOfList(d, T, fmt, items, i, s);
      }
    }
  }

  // __list2str
  method List2Str(d: nat, T: Types, fmt: string, lst: Value) returns (r: Option<string>)
    ensures r.Some? ==> FieldPacks(d, T, Spec(fmt, [0]), lst, r.value)
    ensures r.None? ==> forall s :: !FieldPacks(d, T, Spec(fmt, [0]), lst, s)
    decreases d, 1
  {
    if !lst.List? {
      return None;
    }
    var strList: seq<string> := [];
    for i := 0 to |lst.items|
      invariant ItemsPack(d, T, fmt, lst.items[..i], strList)
    {
      var text := Type2Str(d, T, fmt, lst.items[i]);
      if text.None? {
        NoItemNoList(d, T, fmt, lst.items, i);
        return None;
      }
      strList := strList + [text.value];
    }
    assert lst.items[..|lst.items|] == lst.items;
    return Some(Join(strList, LIST_SEP));
  }

  // __type2str
  method Type2Str(d: nat, T: Types, fmt: string, data: Value) returns (r: Option<string>)
    ensures r.Some? ==> TypePacks(d, T, fmt, data, r.value)
    ensures r.None? ==> forall s :: !TypePacks(d, T, fmt, data, s)
    ensures fmt == "int" && data.Int? ==> r.Some? && Writes(r.value, data.n)
    ensures fmt == "str" && data.Str? ==> r == Some(data.s)
    decreases d, 0
  {
    if Internal(fmt) {
      if fmt == "int" && data.Int? {
        TextWrites(Text(data.n), data.n);
        return Some(Text(data.n));
      } else if fmt == "str" && data.Str? {
        return Some(data.s);
      } else {
        return None;
      }
    }
    if fmt !in T || d == 0 {
      return None;
    }
    r := Pack(d - 1, T, T[fmt], data);
  }

  // Unpacking, as written.

  // __str2strdict
  method Str2StrDict(s: string) returns (dct: map<string, string>)
    ensures dct == Dict(s)
  {
    dct := KvList2StrDict(Split(s, DICT_SEP));
  }

  // Its loop.
  method KvList2StrDict(kvList: seq<string>) returns (dct: map<string, string>)
    ensures dct == StrDict(kvList, |kvList|)
  {
    dct := map[];
    for i := 0 to |kvList|
      invariant dct == StrDict(kvList, i)
    {
      var kv := kvList[i];
      var idx := Find(kv, KV_SEP);
      var key := if idx >= 0 then kv[..idx] else if kv == "" then "" else kv[..|kv| - 1];
      dct := dct[key := kv[idx + 1..]];
    }
  }

  lemma ReadFieldsIs(d: nat, T: Types, args: Args, dict: map<string, string>, m: map<string, Value>)
    requires m.Keys == dict.Keys * args.Keys
    requires forall k :: k in m ==> ReadField(d, T, args[k], dict[k]) == Some(m[k])
    ensures ReadFields(d, T, args, dict) == Some(Record(m))
  {
    assert m == map k | k in dict && k in args :: ReadField(d, T, args[k], dict[k]).value;
  }

  lemma ReadItemsIs(d: nat, T: Types, fmt: string, parts: seq<string>, items: seq<Value>)
    requires |parts| == |items|
    requires forall i :: 0 <= i < |parts| ==> ReadType(d, T, fmt, parts[i]) == Some(items[i])
    ensures ReadItems(d, T, fmt, parts) == Some(List(items))
  {
    assert items == seq(|parts|, i requires 0 <= i < |parts| => ReadType(d, T, fmt, parts[i]).value);
  }

  lemma NoReadItems(d: nat, T: Types, fmt: string, parts: seq<string>, i: nat)
    requires i < |parts| && ReadType(d, T, fmt, parts[i]).None?
    ensures ReadItems(d, T, fmt, parts).None?
  {
  }

  // __unpack
  method Unpack(d: nat, T: Types, params: Args, s: string) returns (r: Option<Value>)
    ensures r == ReadRecord(d, T, params, s)
    decreases d, 4
  {
    var strDict := Str2StrDict(s);
    r := UnpackFields(d, T, params, strDict);
  }

  // The loop of __unpack.
  method UnpackFields(d: nat, T: Types, params: Args, strDict: map<string, string>) returns (r: Option<Value>)
    ensures r == ReadFields(d, T, params, strDict)
    decreases d, 3
  {
    var dct: map<string, Value> := map[];
    var rest := strDict.Keys;
    while rest != {}
      invariant rest <= strDict.Keys && dct.Keys == (strDict.Keys - rest) * params.Keys
      invariant forall k :: k in dct ==> ReadField(d, T, params[k], strDict[k]) == Some(dct[k])
    {
      var k :| k in rest;
      rest := rest - {k};
      if k !in params {
        continue;
      }
      var fmt := params[k].fmt;
      var data: Option<Value>;
      if IsList(params[k]) {
        data := Str2List(d, T, fmt, strDict[k]);
      } else {
        data := Str2Type(d, T, fmt, strDict[k]);
      }
      if data.None? {
        return None;
      }
      dct := dct[k := data.value];
    }
    ReadFieldsIs(d, T, params, strDict, dct);
    return Some(Record(dct));
  }

  // __str2list
  method Str2List(d: nat, T: Types, fmt: string, listStr: string) returns (r: Option<Value>)
    ensures r == ReadItems(d, T, fmt, Split(listStr, LIST_SEP))
    decreases d, 2
  {
    r := Items2List(d, T, fmt, Split(listStr, LIST_SEP));
  }

  // Its loop.
  method Items2List(d: nat, T: Types, fmt: string, items: seq<string>) returns (r: Option<Value>)
    ensures r == ReadItems(d, T, fmt, items)
    decreases d, 1
  {
    var lst: seq<Value> := [];
    for i := 0 to |items|
      invariant |lst| == i && forall k :: 0 <= k < i ==> ReadType(d, T, fmt, items[k]) == Some(lst[k])
    {
      var data := Str2Type(d, T, fmt, items[i]);
      if data.None? {
        NoReadItems(d, T, fmt, items, i);
        return None;
      }
      lst := lst + [data.value];
    }
    ReadItemsIs(d, T, fmt, items, lst);
    return Some(List(lst));
  }

  // __str2type
  method Str2Type(d: nat, T: Types, fmt: string, s: string) returns (r: Option<Value>)
    ensures r == ReadType(d, T, fmt, s)
    decreases d, 0
  {
    if Internal(fmt) {
      if fmt == "int" {
        r := IntValue(ParseInt(s));
      } else if fmt == "float" {
        r := IntValue(ParseLong(s));
      } else {
        r := Some(Str(s));
      }
    } else if fmt !in T || d == 0 {
      r := None;
    } else {
      r := Unpack(d - 1, T, T[fmt], s);
    }
  }
}
