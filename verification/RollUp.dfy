/** Rolling keys up by a delimiter, and the order theory that makes it well behaved. */
module RollUp {
  import opened KeyOrder
  import opened Bytes
  import opened Text

  /** What a key contributes to a listing: itself, or the common prefix it falls under. */
  datatype Item = Key(key: string) | Common(prefix: string)

  function TrimPrefix(s: string, prefix: string): string {
    if prefix <= s then s[|prefix|..] else s
  }

  function Group(prefix: string, delimiter: string, key: string): Item {
    if delimiter == "" then Key(key)
    else
      var suffix := TrimPrefix(key, prefix);
      var idx := Index(suffix, delimiter);
      if idx >= 0 then Common(prefix + suffix[..idx + |delimiter|]) else Key(key)
  }

  // --- what a roll-up is, in terms of the key alone ---

  /** The delimiter stands in the key at that place, and nowhere between the prefix and there. */
  ghost predicate FirstBehind(prefix: string, delimiter: string, k: string, at: int) {
    && |prefix| <= at && OccursAt(delimiter, k, at)
    && forall b :: |prefix| <= b < at ==> !OccursAt(delimiter, k, b)
  }

  /** The delimiter stands somewhere in the key behind the prefix, or right behind it. */
  predicate Covered(prefix: string, delimiter: string, k: string) {
    delimiter != "" && exists at :: |prefix| <= at <= |k| && OccursAt(delimiter, k, at)
  }

  /** p is the key up to the end of the first delimiter behind the prefix. */
  ghost predicate RollsUpTo(prefix: string, delimiter: string, k: string, p: string) {
    && delimiter != ""
    && exists at :: FirstBehind(prefix, delimiter, k, at) && p == k[..at + |delimiter|]
  }

  lemma OccursBehind(prefix: string, delimiter: string, k: string, at: int)
    requires prefix <= k && at >= |prefix|
    ensures OccursAt(delimiter, k, at) <==> OccursAt(delimiter, k[|prefix|..], at - |prefix|)
  {
    if at + |delimiter| <= |k| {
      SliceOfDrop(k, |prefix|, at - |prefix|, at - |prefix| + |delimiter|);
    }
  }

  /**
   * A key under the prefix is shown as itself exactly if no delimiter stands behind the prefix, and otherwise
   * as the key up to the end of the first one.
   */
  lemma GroupMeans(prefix: string, delimiter: string, k: string)
    requires prefix <= k
    ensures Group(prefix, delimiter, k).Key? <==> !Covered(prefix, delimiter, k)
    ensures Group(prefix, delimiter, k).Key? ==> Group(prefix, delimiter, k).key == k
    ensures forall p :: Group(prefix, delimiter, k) == Common(p) <==> RollsUpTo(prefix, delimiter, k, p)
  {
    hide OccursAt;
    if delimiter != "" {
      var suffix := TrimPrefix(k, prefix);
      var idx := Index(suffix, delimiter);
      IndexIsFirst(suffix, delimiter);
      forall at | at >= |prefix|
        ensures OccursAt(delimiter, k, at) <==> OccursAt(delimiter, suffix, at - |prefix|)
      {
        OccursBehind(prefix, delimiter, k, at);
      }
      if idx >= 0 {
        var at := |prefix| + idx;
        assert OccursAt(delimiter, k, at) && at <= |k|;
        assert FirstBehind(prefix, delimiter, k, at);
        assert k == prefix + suffix;
        assert prefix + suffix[..idx + |delimiter|] == k[..at + |delimiter|];
        forall b | FirstBehind(prefix, delimiter, k, b)
          ensures b == at
        {
          assert OccursAt(delimiter, suffix, b - |prefix|);
        }
      } else {
        forall at | |prefix| <= at
          ensures !OccursAt(delimiter, k, at)
        {
        }
      }
    }
  }

  /** A delimiter right behind the prefix ends the common prefix. */
  lemma RightBehind(prefix: string, delimiter: string, rest: string)
    requires delimiter != ""
    ensures RollsUpTo(prefix, delimiter, prefix + delimiter + rest, prefix + delimiter)
  {
    var k, at := prefix + delimiter + rest, |prefix|;
    assert k[at..at + |delimiter|] == delimiter;
    assert OccursAt(delimiter, k, at) && FirstBehind(prefix, delimiter, k, at);
    assert k[..at + |delimiter|] == prefix + delimiter;
  }

  /** An instance: a folder listed without its trailing slash. */
  lemma FolderWithoutSlash()
    ensures Group("photos", "/", "photos/a.jpg") == Common("photos/")
  {
    hide Group, RollsUpTo;
    RightBehind("photos", "/", "a.jpg");
    assert "photos" + "/" + "a.jpg" == "photos/a.jpg" && "photos" + "/" == "photos/";
    GroupMeans("photos", "/", "photos/a.jpg");
  }

  // --- a group is determined by its prefix ---

  lemma PrefixThrough(d: string, head: string, s: string)
    requires |d| <= |head| && head <= s
    ensures d <= s <==> d <= head
  {
    assert forall k :: 0 <= k < |head| ==> head[k] == s[k];
  }

  lemma {:induction false} IndexOfExtension(s: string, t: string, d: string)
    requires d != [] && Index(s, d) >= 0 && s[..Index(s, d) + |d|] <= t
    ensures Index(t, d) == Index(s, d)
    decreases |s|
  {
    var i := Index(s, d);
    var head := s[..i + |d|];
    assert forall k :: 0 <= k < |head| ==> t[k] == head[k] == s[k];
    if i == 0 {
      assert t[..|d|] == head == d;
    } else {
      PrefixThrough(d, head, t);
      PrefixThrough(d, head, s);
      assert s[1..][..i - 1 + |d|] == head[1..] && head[1..] <= t[1..];
      IndexOfExtension(s[1..], t[1..], d);
    }
  }

  lemma GroupIsPrefix(prefix: string, delimiter: string, key: string)
    requires prefix <= key && Group(prefix, delimiter, key).Common?
    ensures Group(prefix, delimiter, key).prefix <= key
  {
    var suffix := TrimPrefix(key, prefix);
    assert key == prefix + suffix;
  }

  /** Every key that starts with a rolled-up prefix rolls up to that prefix. */
  lemma GroupOfExtension(prefix: string, delimiter: string, a: string, b: string)
    requires prefix <= a && Group(prefix, delimiter, a).Common? && Group(prefix, delimiter, a).prefix <= b
    ensures prefix <= b && Group(prefix, delimiter, b) == Group(prefix, delimiter, a)
  {
    hide Index;
    var p := Group(prefix, delimiter, a).prefix;
    var s := TrimPrefix(a, prefix);
    var idx := Index(s, delimiter);
    var head := s[..idx + |delimiter|];
    assert p == prefix + head;
    assert p[|prefix|..] == head && p[..|prefix|] == prefix;
    assert b[..|p|] == p && b[|prefix|..][..|head|] == p[|prefix|..];
    var t := TrimPrefix(b, prefix);
    IndexOfExtension(s, t, delimiter);
    assert t[..idx + |delimiter|] == head;
  }

  /** Rolled-up prefixes that differ do not extend one another. */
  lemma GroupsIncomparable(prefix: string, delimiter: string, a: string, b: string)
    requires prefix <= a && prefix <= b
    requires Group(prefix, delimiter, a).Common? && Group(prefix, delimiter, b).Common?
    requires Group(prefix, delimiter, a).prefix <= Group(prefix, delimiter, b).prefix
    ensures Group(prefix, delimiter, a) == Group(prefix, delimiter, b)
  {
    GroupIsPrefix(prefix, delimiter, b);
    GroupOfExtension(prefix, delimiter, a, b);
  }

  /** The keys of one group are contiguous. */
  lemma GroupContiguous(prefix: string, delimiter: string, a: string, b: string, c: string)
    requires prefix <= a && prefix <= c && Less(a, b) && Less(b, c)
    requires Group(prefix, delimiter, a).Common? && Group(prefix, delimiter, a) == Group(prefix, delimiter, c)
    ensures Group(prefix, delimiter, b) == Group(prefix, delimiter, a)
  {
    GroupIsPrefix(prefix, delimiter, a);
    GroupIsPrefix(prefix, delimiter, c);
    PrefixBetween(Group(prefix, delimiter, a).prefix, a, b, c);
    GroupOfExtension(prefix, delimiter, a, b);
  }

  /** Different groups are ordered as their keys are. */
  lemma GroupsOrdered(prefix: string, delimiter: string, a: string, b: string)
    requires prefix <= a && prefix <= b && Less(a, b)
    requires Group(prefix, delimiter, a).Common? && Group(prefix, delimiter, b).Common?
    requires Group(prefix, delimiter, a) != Group(prefix, delimiter, b)
    ensures
      var p, q := Group(prefix, delimiter, a).prefix, Group(prefix, delimiter, b).prefix;
      Less(p, q) && !(p <= q) && !(q <= p)
  {
    var p, q := Group(prefix, delimiter, a).prefix, Group(prefix, delimiter, b).prefix;
    if p <= q {
      GroupsIncomparable(prefix, delimiter, a, b);
    }
    if q <= p {
      GroupsIncomparable(prefix, delimiter, b, a);
    }
    GroupIsPrefix(prefix, delimiter, a);
    GroupIsPrefix(prefix, delimiter, b);
    LessByDifference(p, q, a, b);
  }

  // --- one left-to-right pass with a set of the prefixes seen ---

  predicate Skips(item: Item, seen: set<string>) {
    item.Common? && item.prefix in seen
  }

  function Remember(item: Item, seen: set<string>): set<string> {
    if item.Common? then seen + {item.prefix} else seen
  }

  function Rolled(prefix: string, delimiter: string, rows: seq<string>, seen: set<string>): seq<Item> {
    if rows == [] then []
    else
      var item := Group(prefix, delimiter, rows[0]);
      (if Skips(item, seen) then [] else [item]) +
      Rolled(prefix, delimiter, rows[1..], Remember(item, seen))
  }

  // --- the same without a set: neighbours with one common prefix are shown once ---

  function Groups(prefix: string, delimiter: string, rows: seq<string>): (g: seq<Item>)
    ensures |g| == |rows| && forall i :: 0 <= i < |rows| ==> g[i] == Group(prefix, delimiter, rows[i])
  {
    seq(|rows|, i requires 0 <= i < |rows| => Group(prefix, delimiter, rows[i]))
  }

  /** Drops every common prefix that repeats its left neighbour. */
  function Collapse(items: seq<Item>): seq<Item> {
    if items == [] then []
    else
      var n := |items| - 1;
      if n > 0 && items[n].Common? && items[n - 1] == items[n] then Collapse(items[..n])
      else Collapse(items[..n]) + [items[n]]
  }

  lemma {:induction false} CollapseKeepsLast(items: seq<Item>)
    requires items != []
    ensures Collapse(items) != [] && Collapse(items)[|Collapse(items)| - 1] == items[|items| - 1]
    decreases |items|
  {
    var n := |items| - 1;
    if n > 0 && items[n].Common? && items[n - 1] == items[n] {
      CollapseKeepsLast(items[..n]);
    }
  }

  lemma CollapseSnoc(items: seq<Item>, item: Item)
    ensures Collapse(items + [item]) ==
            if items != [] && item.Common? && items[|items| - 1] == item then Collapse(items)
            else Collapse(items) + [item]
  {
    assert (items + [item])[..|items|] == items;
  }

  lemma {:induction false} CollapseIdempotent(items: seq<Item>)
    ensures Collapse(Collapse(items)) == Collapse(items)
    decreases |items|
  {
    if items != [] {
      var n := |items| - 1;
      var front := items[..n];
      CollapseIdempotent(front);
      CollapseSnoc(Collapse(front), items[n]);
      if n > 0 {
        CollapseKeepsLast(front);
      }
    }
  }

  /** Collapsing pieces first changes nothing. */
  lemma {:induction false} CollapsePieces(a: seq<Item>, b: seq<Item>)
    ensures Collapse(Collapse(a) + Collapse(b)) == Collapse(a + b)
    decreases |b|
  {
    if b == [] {
      assert a + b == a && Collapse(a) + Collapse(b) == Collapse(a);
      CollapseIdempotent(a);
    } else {
      hide Collapse;
      var n := |b| - 1;
      var front, item := b[..n], b[n];
      assert b == front + [item];
      CollapsePieces(a, front);
      CollapseSnoc(a + front, item);
      assert a + b == (a + front) + [item];
      var left := Collapse(a) + Collapse(front);
      CollapseSnoc(left, item);
      CollapseSnoc(front, item);
      if front != [] {
        CollapseKeepsLast(front);
      } else if a != [] {
        CollapseKeepsLast(a);
      }
      JoinedLast(Collapse(a), Collapse(front));
      JoinedLast(a, front);
      Glue(Collapse(a), Collapse(front), item);
    }
  }

  lemma JoinedLast(a: seq<Item>, b: seq<Item>)
    ensures b != [] ==> a + b != [] && (a + b)[|a + b| - 1] == b[|b| - 1]
    ensures b == [] ==> a + b == a
  {
  }

  lemma Glue(a: seq<Item>, b: seq<Item>, item: Item)
    ensures a + (b + [item]) == (a + b) + [item]
  {
  }
}
