/**
 Statistics keys: five fields printed with colons between them, and read back
 by splitting on colons (pkg/discoveryservice/xdss/stats/kv.go).
 */
module StatKeys {
  import opened Wrappers
  import opened Strings

  datatype Key = Key(node: string, rtype: string, version: string, pod: string, stat: string)

  /** The four identifying fields hold no colon; the stat name may. */
  predicate Plain(k: Key) {
    ColonFree(k.node) && ColonFree(k.rtype) && ColonFree(k.version) && ColonFree(k.pod)
  }

  function Print(k: Key): (s: string) {
    Join([k.node, k.rtype, k.version, k.pod, k.stat])
  }

  /** `None` where the program would index past the end of the split text. */
  function Parse(s: string): (k: Option<Key>) {
    var values := Split(s);
    if |values| < 4 then None
    else Some(Key(values[0], values[1], values[2], values[3], Join(values[4..])))
  }

  lemma PrintShape(k: Key)
    ensures Print(k) == k.node + ":" + (k.rtype + ":" + (k.version + ":" + (k.pod + ":" + k.stat)))
  {
    assert Join([k.pod, k.stat]) == k.pod + ":" + k.stat by {
      assert [k.pod, k.stat][1..] == [k.stat];
    }
    assert Join([k.version, k.pod, k.stat]) == k.version + ":" + Join([k.pod, k.stat]) by {
      assert [k.version, k.pod, k.stat][1..] == [k.pod, k.stat];
    }
    assert Join([k.rtype, k.version, k.pod, k.stat]) == k.rtype + ":" + Join([k.version, k.pod, k.stat]) by {
      assert [k.rtype, k.version, k.pod, k.stat][1..] == [k.version, k.pod, k.stat];
    }
    assert [k.node, k.rtype, k.version, k.pod, k.stat][1..] == [k.rtype, k.version, k.pod, k.stat];
  }

  lemma SplitPrint(k: Key)
    requires Plain(k)
    ensures Split(Print(k)) == [k.node, k.rtype, k.version, k.pod] + Split(k.stat)
  {
    PrintShape(k);
    var c := k.pod + ":" + k.stat;
    var b := k.version + ":" + c;
    var a := k.rtype + ":" + b;
    SplitHead(k.pod, k.stat);
    SplitHead(k.version, c);
    SplitHead(k.rtype, b);
    SplitHead(k.node, a);
    Regroup(k.node, k.rtype, k.version, k.pod, Split(k.stat));
  }

  lemma Regroup(a: string, b: string, c: string, d: string, rest: seq<string>)
    ensures [a] + ([b] + ([c] + ([d] + rest))) == [a, b, c, d] + rest
  {
  }

  /** Reading a printed key gives the key back, even when the stat name holds colons. */
  lemma ParsePrint(k: Key)
    requires Plain(k)
    ensures Parse(Print(k)) == Some(k)
  {
    SplitPrint(k);
    var values := Split(Print(k));
    assert values[4..] == Split(k.stat);
    JoinSplit(k.stat);
  }

  /** Distinct plain keys print differently, so writing one counter never touches another. */
  lemma PrintInjective(a: Key, b: Key)
    requires Plain(a) && Plain(b) && Print(a) == Print(b)
    ensures a == b
  {
    ParsePrint(a);
    ParsePrint(b);
  }

  /** Printing undoes reading exactly on texts of five parts or more: four parts gain a trailing colon. */
  lemma PrintParse(s: string)
    requires Parse(s).Some?
    ensures Print(Parse(s).value) == s <==> |Split(s)| >= 5
  {
    var v := Split(s);
    var k := Parse(s).value;
    PrintShape(k);
    JoinSplit(s);
    JoinFour(v);
    if |v| == 4 {
      assert Join(v[4..]) == "";
      assert Print(k) == s + ":";
    }
  }

  lemma JoinFour(v: seq<string>)
    requires |v| >= 4
    ensures |v| == 4 ==> Join(v) == v[0] + ":" + (v[1] + ":" + (v[2] + ":" + v[3]))
    ensures |v| > 4 ==> Join(v) == v[0] + ":" + (v[1] + ":" + (v[2] + ":" + (v[3] + ":" + Join(v[4..]))))
  {
    assert v[1..][1..] == v[2..];
    assert v[2..][1..] == v[3..];
    assert Join(v) == v[0] + ":" + Join(v[1..]);
    assert Join(v[1..]) == v[1] + ":" + Join(v[2..]);
    assert Join(v[2..]) == v[2] + ":" + Join(v[3..]);
    if |v| > 4 {
      assert v[3..][1..] == v[4..];
    }
  }

  /** A colon-free filter matches a key exactly when it lies inside one colon-separated field. */
  lemma FilterWithinField(k: Key, f: string)
    requires ColonFree(f)
    ensures Contains(Print(k), f) <==>
            || Contains(k.node, f) || Contains(k.rtype, f) || Contains(k.version, f)
            || Contains(k.pod, f) || Contains(k.stat, f)
  {
    PrintShape(k);
    ContainsAcrossColon(k.pod, k.stat, f);
    ContainsAcrossColon(k.version, k.pod + ":" + k.stat, f);
    ContainsAcrossColon(k.rtype, k.version + ":" + (k.pod + ":" + k.stat), f);
    ContainsAcrossColon(k.node, k.rtype + ":" + (k.version + ":" + (k.pod + ":" + k.stat)), f);
  }

  /** Whatever the identifiers hold, a printed key contains each of its fields. */
  lemma PrintContainsFields(k: Key)
    ensures Contains(Print(k), k.node) && Contains(Print(k), k.rtype) && Contains(Print(k), k.version)
    ensures Contains(Print(k), k.pod) && Contains(Print(k), k.stat)
  {
    PrintShape(k);
    var s := Print(k);
    Field("", k.node, ":" + (k.rtype + ":" + (k.version + ":" + (k.pod + ":" + k.stat))), s);
    Field(k.node + ":", k.rtype, ":" + (k.version + ":" + (k.pod + ":" + k.stat)), s);
    Field(k.node + ":" + k.rtype + ":", k.version, ":" + (k.pod + ":" + k.stat), s);
    Field(k.node + ":" + k.rtype + ":" + k.version + ":", k.pod, ":" + k.stat, s);
    Field(k.node + ":" + k.rtype + ":" + k.version + ":" + k.pod + ":", k.stat, "", s);
  }

  /** What occurs in the stat name occurs in the key. */
  lemma StatInKey(k: Key, f: string)
    requires Contains(k.stat, f)
    ensures Contains(Print(k), f)
  {
    PrintShape(k);
    var left := k.node + ":" + (k.rtype + ":" + (k.version + ":" + (k.pod + ":")));
    ContainsPadded(left, k.stat, "", f);
    assert left + k.stat + "" == Print(k);
  }

  lemma Field(left: string, field: string, right: string, s: string)
    requires s == left + field + right
    ensures Contains(s, field)
  {
    ContainsSelf(field);
    ContainsPadded(left, field, right, field);
  }

  /** Every printed key, whatever its fields hold, splits into at least five parts. */
  lemma PrintHasFiveParts(k: Key)
    ensures |Split(Print(k))| >= 5
  {
    PrintShape(k);
    SplitGrows(k.pod, k.stat);
    SplitGrows(k.version, k.pod + ":" + k.stat);
    SplitGrows(k.rtype, k.version + ":" + (k.pod + ":" + k.stat));
    SplitGrows(k.node, k.rtype + ":" + (k.version + ":" + (k.pod + ":" + k.stat)));
  }

  lemma {:induction false} SplitGrows(head: string, tail: string)
    ensures |Split(head + ":" + tail)| >= 1 + |Split(tail)|
  {
    var s := head + ":" + tail;
    if head == [] {
      assert s[1..] == tail;
    } else {
      assert s[1..] == head[1..] + ":" + tail;
      SplitGrows(head[1..], tail);
    }
  }
}
