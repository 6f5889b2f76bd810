/**
 Colon-separated text: the substring test, splitting and joining that the
 statistics store builds its keys and lookups from.
 */
module Strings {

  predicate ColonFree(s: string) {
    ':' !in s
  }

  predicate OccursAt(s: string, sub: string, i: int) {
    0 <= i && i + |sub| <= |s| && s[i..i + |sub|] == sub
  }

  /** `strings.Contains`. */
  predicate Contains(s: string, sub: string) {
    exists i :: 0 <= i <= |s| && OccursAt(s, sub, i)
  }

  /** `strings.Split(s, ":")`. */
  function Split(s: string): (parts: seq<string>)
    ensures |parts| >= 1
  {
    if s == [] then [""]
    else
      var rest := Split(s[1..]);
      if s[0] == ':' then [""] + rest else [[s[0]] + rest[0]] + rest[1..]
  }

  /** `strings.Join(parts, ":")`. */
  function Join(parts: seq<string>): (s: string) {
    if |parts| == 0 then ""
    else if |parts| == 1 then parts[0]
    else parts[0] + ":" + Join(parts[1..])
  }

  /** Joining what was split gives the text back. */
  lemma {:induction false} JoinSplit(s: string)
    ensures Join(Split(s)) == s
  {
    if s != [] {
      JoinSplit(s[1..]);
      var rest := Split(s[1..]);
      if s[0] == ':' {
        assert ([""] + rest)[1..] == rest;
        assert "" + ":" + Join(rest) == s;
      } else {
        JoinPrepend(s[0], rest);
      }
    }
  }

  lemma JoinPrepend(c: char, rest: seq<string>)
    requires |rest| >= 1
    ensures Join([[c] + rest[0]] + rest[1..]) == [c] + Join(rest)
  {
  }

  /** A colon-free head splits off as one part. */
  lemma {:induction false} SplitHead(head: string, tail: string)
    requires ColonFree(head)
    ensures Split(head + ":" + tail) == [head] + Split(tail)
  {
    var s := head + ":" + tail;
    if head == [] {
      assert s[1..] == tail;
    } else {
      assert s[1..] == head[1..] + ":" + tail;
      SplitHead(head[1..], tail);
      assert [s[0]] + head[1..] == head;
    }
  }

  /** Every part of a split is colon-free. */
  lemma {:induction false} SplitPartsColonFree(s: string)
    ensures forall i :: 0 <= i < |Split(s)| ==> ColonFree(Split(s)[i])
  {
    if s != [] {
      SplitPartsColonFree(s[1..]);
      var rest := Split(s[1..]);
      if s[0] != ':' {
        assert ColonFree(rest[0]);
      }
    }
  }

  lemma ContainsAt(s: string, sub: string, i: nat)
    requires OccursAt(s, sub, i)
    ensures Contains(s, sub)
  {
  }

  /** Text around a piece keeps every occurrence inside the piece. */
  lemma ContainsPadded(left: string, middle: string, right: string, sub: string)
    requires Contains(middle, sub)
    ensures Contains(left + middle + right, sub)
  {
    var i :| 0 <= i <= |middle| && OccursAt(middle, sub, i);
    var s := left + middle + right;
    var j := |left| + i;
    assert s[j..j + |sub|] == middle[i..i + |sub|];
    ContainsAt(s, sub, j);
  }

  lemma ContainsSelf(s: string)
    ensures Contains(s, s)
  {
    assert s[0..0 + |s|] == s;
    ContainsAt(s, s, 0);
  }

  lemma OccurrenceReads(s: string, sub: string, i: nat, m: nat)
    requires OccursAt(s, sub, i)
    ensures i <= m < i + |sub| ==> sub[m - i] == s[m]
  {
  }

  /** A colon-free text cannot straddle a colon. */
  lemma ContainsAcrossColon(head: string, tail: string, sub: string)
    requires ColonFree(sub)
    ensures Contains(head + ":" + tail, sub) <==> Contains(head, sub) || Contains(tail, sub)
  {
    var s := head + ":" + tail;
    if Contains(s, sub) {
      var i :| 0 <= i <= |s| && OccursAt(s, sub, i);
      OccurrenceInOnePart(head, tail, sub, i);
    }
    if Contains(head, sub) {
      ContainsPadded("", head, ":" + tail, sub);
      assert "" + head + (":" + tail) == s;
    }
    if Contains(tail, sub) {
      ContainsPadded(head + ":", tail, "", sub);
      assert (head + ":") + tail + "" == s;
    }
  }

  lemma OccurrenceInOnePart(head: string, tail: string, sub: string, i: nat)
    requires ColonFree(sub) && OccursAt(head + ":" + tail, sub, i)
    ensures Contains(head, sub) || Contains(tail, sub)
  {
    var s := head + ":" + tail;
    assert s[|head|] == ':';
    OccurrenceReads(s, sub, i, |head|);
    if i + |sub| <= |head| {
      assert forall k :: 0 <= k < |head| ==> s[k] == head[k];
      assert head[i..i + |sub|] == s[i..i + |sub|];
      ContainsAt(head, sub, i);
    } else {
      var j := i - |head| - 1;
      assert forall k :: |head| < k < |s| ==> s[k] == tail[k - |head| - 1];
      assert tail[j..j + |sub|] == s[i..i + |sub|];
      ContainsAt(tail, sub, j);
    }
  }
}
