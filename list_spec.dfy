/**
 * What the operations of the linked list in linked-list.rb mean, stated on
 * the sequence of values the list holds, in traversal order from `first`.
 * The imperative model in module LinkedLists is proved against these
 * functions.
 */
module ListSpec {

  /** The index of the first occurrence of `t` in `s`, or `|s|` when `t` does not occur. */
  function IndexOf<T(==)>(s: seq<T>, t: T): (i: nat)
    ensures i <= |s|
    ensures i < |s| <==> t in s
    ensures i < |s| ==> s[i] == t
    ensures t !in s[..i]
  {
    if s == [] then 0
    else if s[0] == t then 0
    else
      var i := 1 + IndexOf(s[1..], t);
      assert s[..i] == [s[0]] + s[1..][..i - 1];
      i
  }

  /** A position holding `t` with no `t` before it is the index of the first occurrence. */
  lemma FirstMatchAt<T>(s: seq<T>, t: T, k: nat)
    requires k < |s| && s[k] == t && t !in s[..k]
    ensures IndexOf(s, t) == k
  {
  }

  /**
   * `s` with `v` placed right after the first occurrence of `t`; `s` itself
   * when `t` does not occur (the `insert_after` that returns nil).
   */
  function InsertAfter<T(==)>(s: seq<T>, t: T, v: T): (r: seq<T>)
    ensures t !in s ==> r == s
    ensures t in s ==> r == s[..IndexOf(s, t) + 1] + [v] + s[IndexOf(s, t) + 1..]
  {
    if s == [] then []
    else if s[0] == t then [s[0], v] + s[1..]
    else
      var rest := InsertAfter(s[1..], t, v);
      if t in s[1..] then
        InsertAfterHead(s, IndexOf(s[1..], t), v);
        [s[0]] + rest
      else
        assert s == [s[0]] + s[1..];
        [s[0]] + rest
  }

  /** Inserting after index `i` of `s[1..]` and putting the head back inserts after index `i + 1` of `s`. */
  lemma InsertAfterHead<T>(s: seq<T>, i: nat, v: T)
    requires i + 1 < |s|
    ensures [s[0]] + (s[1..][..i + 1] + [v] + s[1..][i + 1..]) == s[..i + 2] + [v] + s[i + 2..]
  {
    assert s[..i + 2] == [s[0]] + s[1..][..i + 1];
  }

  /**
   * `s` without the first occurrence of `t`, everything else kept in order;
   * `s` itself when `t` does not occur.
   */
  function RemoveFirst<T(==)>(s: seq<T>, t: T): (r: seq<T>)
    ensures t !in s ==> r == s
    ensures t in s ==> r == s[..IndexOf(s, t)] + s[IndexOf(s, t) + 1..]
  {
    if s == [] then []
    else if s[0] == t then s[1..]
    else
      var rest := RemoveFirst(s[1..], t);
      if t in s[1..] then
        DropAfterHead(s, IndexOf(s[1..], t));
        [s[0]] + rest
      else
        assert s == [s[0]] + s[1..];
        [s[0]] + rest
  }

  /** Removing the first occurrence takes exactly one copy of `t` out of the multiset of values, if there is one. */
  lemma RemoveFirstMultiset<T>(s: seq<T>, t: T)
    ensures multiset(RemoveFirst(s, t)) == multiset(s) - multiset{t}
  {
    if t in s {
      var i := IndexOf(s, t);
      assert RemoveFirst(s, t) == s[..i] + s[i + 1..];
      DropAtMultiset(s, i);
    }
  }

  /** Dropping index `i` of `s` takes one copy of `s[i]` out of its multiset. */
  lemma DropAtMultiset<T>(s: seq<T>, i: nat)
    requires i < |s|
    ensures multiset(s[..i] + s[i + 1..]) == multiset(s) - multiset{s[i]}
    ensures i == 0 ==> multiset(s[1..]) == multiset(s) - multiset{s[0]}
  {
    assert s == s[..i] + [s[i]] + s[i + 1..];
    assert i == 0 ==> s[..i] + s[i + 1..] == s[1..];
  }

  /** Dropping index `i` of `s[1..]` and putting the head back drops index `i + 1` of `s`. */
  lemma DropAfterHead<T>(s: seq<T>, i: nat)
    requires i + 1 < |s|
    ensures [s[0]] + (s[1..][..i] + s[1..][i + 1..]) == s[..i + 1] + s[i + 2..]
  {
    assert s[..i + 1] == [s[0]] + s[1..][..i];
  }

  /**
   * The lists on which `remove(t)` runs to completion: `first` is not nil,
   * and when the head holds `t` the node after it does not, since the scan
   * that follows the head's removal would otherwise relink through a nil
   * predecessor.
   */
  predicate Removable<T(==)>(s: seq<T>, t: T): (r: bool)
    ensures r <==> s != [] && (s[0] == t && t in s[1..] ==> IndexOf(s[1..], t) > 0)
  {
    s != [] && (s[0] == t && |s| > 1 ==> s[1] != t)
  }

  /**
   * `remove(t)` as written: a matching head is dropped, and then the scan
   * over what is left unlinks the first node there that holds `t`. A head
   * match therefore removes up to two occurrences of `t`, any other list
   * loses at most one.
   */
  function Remove<T(==)>(s: seq<T>, t: T): (r: seq<T>)
    requires Removable(s, t)
    ensures s[0] != t ==> multiset(r) == multiset(s) - multiset{t}
    ensures s[0] == t ==> multiset(r) == multiset(s) - multiset{t} - multiset{t}
  {
    if s[0] == t then
      RemoveFirstMultiset(s[1..], t);
      DropAtMultiset(s, 0);
      RemoveFirst(s[1..], t)
    else
      RemoveFirstMultiset(s, t);
      RemoveFirst(s, t)
  }

  /** Ruby's `Array#join(sep)`: the parts with `sep` between neighbours. */
  function Join(parts: seq<string>, sep: string): (r: string)
    ensures parts == [] ==> r == ""
    ensures parts != [] ==> |parts[0]| <= |r| && r[..|parts[0]|] == parts[0]
    ensures parts != [] ==>
      var last := parts[|parts| - 1];
      |last| <= |r| && r[|r| - |last|..] == last
  {
    if |parts| == 0 then ""
    else if |parts| == 1 then parts[0]
    else parts[0] + sep + Join(parts[1..], sep)
  }

  /** Each value converted to its text. */
  function Shown<T>(s: seq<T>, show: T -> string): seq<string>
  {
    seq(|s|, i requires 0 <= i < |s| => show(s[i]))
  }

  /** What `to_s` renders for a list holding `s`: the values joined by ", ". */
  function Render<T>(s: seq<T>, show: T -> string): (r: string)
    ensures s == [] ==> r == ""
    ensures s != [] ==> |show(s[0])| <= |r| && r[..|show(s[0])|] == show(s[0])
    ensures s != [] ==>
      var last := show(s[|s| - 1]);
      |last| <= |r| && r[|r| - |last|..] == last
  {
    Join(Shown(s, show), ", ")
  }

  /** When the head does not hold `t`, `remove(t)` removes exactly the first occurrence of `t`. */
  lemma RemoveHeadMiss<T>(s: seq<T>, t: T)
    requires Removable(s, t) && s[0] != t
    ensures t !in s ==> Remove(s, t) == s
    ensures t in s ==> Remove(s, t) == s[..IndexOf(s, t)] + s[IndexOf(s, t) + 1..]
    ensures |Remove(s, t)| == if t in s then |s| - 1 else |s|
  {
    var r := Remove(s, t);
    assert r == RemoveFirst(s, t);
    var i := IndexOf(s, t);
    if i < |s| {
      assert r == s[..i] + s[i + 1..];
      assert |r| == |s| - 1;
    } else {
      assert r == s;
    }
  }

  /**
   * When the head holds `t`, `remove(t)` drops the head and then also the
   * first later occurrence of `t`: it removes the first occurrence twice.
   */
  lemma {:induction false} RemoveHeadMatch<T>(s: seq<T>, t: T)
    requires Removable(s, t) && s[0] == t
    ensures Remove(s, t) == RemoveFirst(RemoveFirst(s, t), t)
    ensures t !in s[1..] ==> Remove(s, t) == s[1..]
    ensures |Remove(s, t)| == if t in s[1..] then |s| - 2 else |s| - 1
  {
  }

  /**
   * Removing a value that occurs once leaves a list without it and one
   * shorter, whichever branch `remove` takes.
   */
  lemma RemoveSingleOccurrence<T>(s: seq<T>, t: T)
    requires Removable(s, t) && multiset(s)[t] == 1
    ensures t !in Remove(s, t)
    ensures |Remove(s, t)| == |s| - 1
  {
    var r := Remove(s, t);
    assert multiset(r)[t] == 0;
    assert |multiset(r)| == |multiset(s)| - 1;
  }

  /** A concrete list on which a head match makes `remove` drop a second node. */
  lemma HeadMatchDropsLaterMatch()
    ensures Remove(["bear", "cat", "bear"], "bear") == ["cat"]
    ensures RemoveFirst(["bear", "cat", "bear"], "bear") == ["cat", "bear"]
  {
  }

  /** A concrete list on which `remove` does not complete: both leading nodes hold the target. */
  lemma DoubleHeadMatchNotRemovable()
    ensures !Removable(["bear", "bear"], "bear")
  {
  }

  /** Joining one more part appends the separator and that part. */
  lemma {:induction false} JoinSnoc(parts: seq<string>, p: string, sep: string)
    requires parts != []
    ensures Join(parts + [p], sep) == Join(parts, sep) + sep + p
  {
    if |parts| == 1 {
      assert parts + [p] == [parts[0], p];
    } else {
      assert (parts + [p])[1..] == parts[1..] + [p];
      JoinSnoc(parts[1..], p, sep);
    }
  }

  /** After `append(v)` the rendering ends with `v`, after a separator when the list was not empty. */
  lemma {:induction false} RenderAppend<T>(s: seq<T>, v: T, show: T -> string)
    ensures Render(s + [v], show) == if s == [] then show(v) else Render(s, show) + ", " + show(v)
  {
    assert Shown(s + [v], show) == Shown(s, show) + [show(v)];
    if s != [] {
      JoinSnoc(Shown(s, show), show(v), ", ");
    }
  }

  /** After `prepend(v)` the rendering starts with `v`, followed by a separator when the list was not empty. */
  lemma {:induction false} RenderPrepend<T>(s: seq<T>, v: T, show: T -> string)
    ensures Render([v] + s, show) == if s == [] then show(v) else show(v) + ", " + Render(s, show)
  {
    assert Shown([v] + s, show)[1..] == Shown(s, show);
  }
}
