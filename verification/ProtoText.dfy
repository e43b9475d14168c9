/** str.split, str.join and str.find with a one-character separator, as py_proto/proto.py uses them. */
module ProtoText {

  // str.find
  function Find(s: string, c: char): (i: int)
    ensures -1 <= i < |s|
  {
    if s == "" then -1
    else if s[0] == c then 0
    else
      var i := Find(s[1..], c);
      if i < 0 then -1 else i + 1
  }

  // It is the first place, if there is one.
  lemma {:induction false} FindFirst(s: string, c: char)
    ensures var i := Find(s, c); if i < 0 then c !in s else s[i] == c && c !in s[..i]
  {
    if s != "" && s[0] != c {
      FindFirst(s[1..], c);
      var i := Find(s[1..], c);
      assert s == [s[0]] + s[1..];
      if i >= 0 {
        assert s[..i + 1] == [s[0]] + s[1..][..i];
      }
    }
  }

  function Split(s: string, sep: char): (parts: seq<string>)
    ensures |parts| > 0
    decreases |s|
  {
    var i := Find(s, sep);
    if i < 0 then [s] else [s[..i]] + Split(s[i + 1..], sep)
  }

  function Join(parts: seq<string>, sep: char): string {
    if |parts| == 0 then ""
    else if |parts| == 1 then parts[0]
    else parts[0] + [sep] + Join(parts[1..], sep)
  }

  lemma FindIs(a: string, c: char, b: string)
    requires c !in a
    ensures Find(a + [c] + b, c) == |a|
  {
    var s := a + [c] + b;
    assert s[|a|] == c;
    FindFirst(s, c);
    assert forall k :: 0 <= k < |a| ==> s[k] == a[k];
  }

  // Parts that hold no separator come back.
  lemma {:induction false} SplitOfJoin(parts: seq<string>, sep: char)
    requires |parts| > 0 && forall i :: 0 <= i < |parts| ==> sep !in parts[i]
    ensures Split(Join(parts, sep), sep) == parts
  {
    var s := Join(parts, sep);
    if |parts| == 1 {
      FindFirst(s, sep);
      assert parts == [parts[0]];
    } else {
      var rest := Join(parts[1..], sep);
      FindIs(parts[0], sep, rest);
      assert s[..|parts[0]|] == parts[0] && s[|parts[0]| + 1..] == rest;
      SplitOfJoin(parts[1..], sep);
      assert parts == [parts[0]] + parts[1..];
    }
  }

  // The parts of a split hold no separator, and nothing that the string does not hold.
  lemma {:induction false} SplitLacks(s: string, sep: char, c: char)
    requires c == sep || c !in s
    ensures forall i :: 0 <= i < |Split(s, sep)| ==> c !in Split(s, sep)[i]
    decreases |s|
  {
    var i := Find(s, sep);
    FindFirst(s, sep);
    if i >= 0 {
      assert c !in s[..i];
      assert c == sep || c !in s[i + 1..];
      SplitLacks(s[i + 1..], sep, c);
    }
  }

  // What a join holds.
  lemma {:induction false} JoinHolds(parts: seq<string>, sep: char, c: char)
    ensures c in Join(parts, sep) <==>
            (|parts| >= 2 && c == sep) || exists i :: 0 <= i < |parts| && c in parts[i]
  {
    if |parts| >= 2 {
      JoinHolds(parts[1..], sep, c);
      var s, rest := parts[0] + [sep] + Join(parts[1..], sep), Join(parts[1..], sep);
      assert c in s <==> c in parts[0] || c == sep || c in rest;
      forall i | 0 <= i < |parts| && c in parts[i] ensures c in s {
        if i > 0 {
          assert parts[1..][i - 1] == parts[i];
        }
      }
      forall i | 0 <= i < |parts[1..]| && c in parts[1..][i]
        ensures exists j :: 0 <= j < |parts| && c in parts[j]
      {
        assert c in parts[i + 1];
      }
    }
  }

  // A string without separators is one part.
  lemma SplitOfOne(s: string, sep: char)
    requires sep !in s
    ensures Split(s, sep) == [s]
  {
    FindFirst(s, sep);
  }
}
