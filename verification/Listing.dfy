/** ListObjectsV2: one page by batches, and whole listings by following continuation tokens. */
module Listing {
  import opened Bytes
  import opened KeyOrder
  import opened ObjectTable
  import opened RollUp
  import opened Text

  function KeysOf(items: seq<Item>): seq<string> {
    if items == [] then []
    else
      var e := items[|items| - 1];
      KeysOf(items[..|items| - 1]) + if e.Key? then [e.key] else []
  }

  function PrefixesOf(items: seq<Item>): seq<string> {
    if items == [] then []
    else
      var e := items[|items| - 1];
      PrefixesOf(items[..|items| - 1]) + if e.Common? then [e.prefix] else []
  }

  lemma Snoc(items: seq<Item>, e: Item)
    ensures KeysOf(items + [e]) == KeysOf(items) + if e.Key? then [e.key] else []
    ensures PrefixesOf(items + [e]) == PrefixesOf(items) + if e.Common? then [e.prefix] else []
  {
    assert (items + [e])[..|items|] == items;
  }

  // --- the pass with a set shows what the pass without one does ---

  function SeenIn(items: seq<Item>): set<string> {
    set i | 0 <= i < |items| && items[i].Common? :: items[i].prefix
  }

  lemma SeenSnoc(items: seq<Item>, e: Item)
    ensures SeenIn(items + [e]) == Remember(e, SeenIn(items))
  {
    var all := items + [e];
    forall p | p in Remember(e, SeenIn(items))
      ensures p in SeenIn(all)
    {
      if p in SeenIn(items) {
        var i :| 0 <= i < |items| && items[i].Common? && items[i].prefix == p;
        assert all[i] == items[i];
      } else {
        assert all[|items|] == e;
      }
    }
  }

  ghost predicate AllUnder(prefix: string, rows: seq<string>) {
    forall i :: 0 <= i < |rows| ==> prefix <= rows[i]
  }

  /** A prefix has been seen exactly if it is the last row's. */
  lemma SeenIsLast(prefix: string, delimiter: string, rows: seq<string>, n: nat)
    requires Ascending(rows) && AllUnder(prefix, rows) && n < |rows|
    ensures
      var item := Group(prefix, delimiter, rows[n]);
      Skips(item, SeenIn(Groups(prefix, delimiter, rows[..n]))) <==>
      n > 0 && item.Common? && Group(prefix, delimiter, rows[n - 1]) == item
  {
    hide Group;
    hide Less;
    var item, before := Group(prefix, delimiter, rows[n]), Groups(prefix, delimiter, rows[..n]);
    assert forall i :: 0 <= i < n ==> before[i] == Group(prefix, delimiter, rows[i]);
    hide Groups;
    if n > 0 && item.Common? && before[n - 1] == item {
      assert before[n - 1].prefix in SeenIn(before);
    } else if Skips(item, SeenIn(before)) {
      var i :| 0 <= i < |before| && before[i].Common? && before[i].prefix == item.prefix;
      assert before[i] == item && i < n - 1;
      GroupContiguous(prefix, delimiter, rows[i], rows[n - 1], rows[n]);
      assert false;
    }
  }

  lemma RolledFirst(prefix: string, delimiter: string, rows: seq<string>, n: nat, seen: set<string>)
    requires n < |rows|
    ensures
      var item := Group(prefix, delimiter, rows[n]);
      Rolled(prefix, delimiter, rows[n..], seen) ==
      (if Skips(item, seen) then [] else [item]) + Rolled(prefix, delimiter, rows[n + 1..], Remember(item, seen))
  {
    hide Group;
    assert rows[n..][0] == rows[n] && rows[n..][1..] == rows[n + 1..];
  }

  lemma GroupsJoined(prefix: string, delimiter: string, rows: seq<string>, pos: nat, n: nat)
    requires pos + n <= |rows|
    ensures Groups(prefix, delimiter, rows[..pos + n]) ==
            Groups(prefix, delimiter, rows[..pos]) + Groups(prefix, delimiter, rows[pos..][..n])
  {
    hide Group;
    var gone := rows[pos..][..n];
    assert forall i :: 0 <= i < n ==> gone[i] == rows[pos + i];
  }

  lemma GroupsSnoc(prefix: string, delimiter: string, rows: seq<string>, n: nat)
    requires n < |rows|
    ensures Groups(prefix, delimiter, rows[..n + 1]) ==
            Groups(prefix, delimiter, rows[..n]) + [Group(prefix, delimiter, rows[n])]
    ensures n > 0 ==> Groups(prefix, delimiter, rows[..n])[n - 1] == Group(prefix, delimiter, rows[n - 1])
  {
    hide Group;
  }

  lemma Stretch(prefix: string, rows: seq<string>, pos: nat, n: nat)
    requires Ascending(rows) && AllUnder(prefix, rows) && pos + n <= |rows|
    ensures Ascending(rows[pos..][..n]) && AllUnder(prefix, rows[pos..][..n])
  {
    hide Less;
    var gone := rows[pos..][..n];
    assert forall i :: 0 <= i < n ==> gone[i] == rows[pos + i];
  }

  lemma {:induction false} RolledContinues(prefix: string, delimiter: string, rows: seq<string>, n: nat)
    requires Ascending(rows) && AllUnder(prefix, rows) && n <= |rows|
    ensures
      var done := Groups(prefix, delimiter, rows[..n]);
      Collapse(done) + Rolled(prefix, delimiter, rows[n..], SeenIn(done)) == Collapse(Groups(prefix, delimiter, rows))
    decreases |rows| - n
  {
    hide Ascending;
    hide AllUnder;
    hide Group;
    hide Groups;
    hide SeenIn;
    hide Collapse;
    var done := Groups(prefix, delimiter, rows[..n]);
    if n == |rows| {
      assert rows[..n] == rows && rows[n..] == [];
      assert Collapse(done) + [] == Collapse(done);
    } else {
      hide Rolled;
      var item := Group(prefix, delimiter, rows[n]);
      GroupsSnoc(prefix, delimiter, rows, n);
      RolledContinues(prefix, delimiter, rows, n + 1);
      SeenSnoc(done, item);
      SeenIsLast(prefix, delimiter, rows, n);
      CollapseSnoc(done, item);
      RolledFirst(prefix, delimiter, rows, n, SeenIn(done));
      var rest := Rolled(prefix, delimiter, rows[n + 1..], SeenIn(done + [item]));
      assert [] + rest == rest;
      Assoc(Collapse(done), [item], rest);
      assert |done| == n;
    }
  }

  /** The set of seen prefixes is equivalent to remembering only the last row's. */
  lemma RolledIsCollapsed(prefix: string, delimiter: string, rows: seq<string>)
    requires Ascending(rows) && AllUnder(prefix, rows)
    ensures Rolled(prefix, delimiter, rows, {}) == Collapse(Groups(prefix, delimiter, rows))
  {
    RolledContinues(prefix, delimiter, rows, 0);
    assert rows[..0] == [] && rows[0..] == rows;
    assert SeenIn(Groups(prefix, delimiter, [])) == {};
    assert Collapse(Groups(prefix, delimiter, [])) == [];
  }

  // --- the common prefixes of a roll-up ---

  lemma {:induction false} RolledAreGroups(prefix: string, delimiter: string, rows: seq<string>, seen: set<string>,
                                           i: nat)
    requires i < |Rolled(prefix, delimiter, rows, seen)|
    ensures
      var item := Rolled(prefix, delimiter, rows, seen)[i];
      !Skips(item, seen) && exists j :: 0 <= j < |rows| && Group(prefix, delimiter, rows[j]) == item
    decreases |rows|
  {
    hide Group;
    var item := Group(prefix, delimiter, rows[0]);
    if i == 0 && !Skips(item, seen) {
      assert Group(prefix, delimiter, rows[0]) == Rolled(prefix, delimiter, rows, seen)[i];
    } else {
      var k := if Skips(item, seen) then i else i - 1;
      RolledAreGroups(prefix, delimiter, rows[1..], Remember(item, seen), k);
      var rest := Rolled(prefix, delimiter, rows[1..], Remember(item, seen));
      assert Rolled(prefix, delimiter, rows, seen)[i] == rest[k];
      var j :| 0 <= j < |rows[1..]| && Group(prefix, delimiter, rows[1..][j]) == rest[k];
      assert Group(prefix, delimiter, rows[j + 1]) == rest[k];
    }
  }

  /** Any two common prefixes of a roll-up are in strict order, and neither extends the other. */
  lemma {:induction false} CommonPrefixesAscend(
    prefix: string, delimiter: string, rows: seq<string>, seen: set<string>, i: nat, j: nat)
    requires Ascending(rows) && AllUnder(prefix, rows)
    requires i < j < |Rolled(prefix, delimiter, rows, seen)|
    requires Rolled(prefix, delimiter, rows, seen)[i].Common? && Rolled(prefix, delimiter, rows, seen)[j].Common?
    ensures
      var items := Rolled(prefix, delimiter, rows, seen);
      var p, q := items[i].prefix, items[j].prefix;
      Less(p, q) && !(p <= q) && !(q <= p)
    decreases |rows|
  {
    hide Group;
    hide Less;
    var item, items := Group(prefix, delimiter, rows[0]), Rolled(prefix, delimiter, rows, seen);
    var seen', rest := Remember(item, seen), Rolled(prefix, delimiter, rows[1..], Remember(item, seen));
    assert items == (if Skips(item, seen) then [] else [item]) + rest;
    AscendingTail(rows, 1);
    assert AllUnder(prefix, rows[1..]) by {
      assert forall k :: 0 <= k < |rows[1..]| ==> rows[1..][k] == rows[k + 1];
    }
    if Skips(item, seen) {
      CommonPrefixesAscend(prefix, delimiter, rows[1..], seen', i, j);
    } else if i > 0 {
      assert items[i] == rest[i - 1] && items[j] == rest[j - 1];
      CommonPrefixesAscend(prefix, delimiter, rows[1..], seen', i - 1, j - 1);
    } else {
      assert items[j] == rest[j - 1];
      FirstBeforeLater(prefix, delimiter, rows, seen', j - 1);
    }
  }

  lemma FirstBeforeLater(prefix: string, delimiter: string, rows: seq<string>, seen: set<string>, j: nat)
    requires Ascending(rows) && AllUnder(prefix, rows) && rows != []
    requires j < |Rolled(prefix, delimiter, rows[1..], seen)|
    requires
      var item := Group(prefix, delimiter, rows[0]);
      item.Common? && item.prefix in seen && Rolled(prefix, delimiter, rows[1..], seen)[j].Common?
    ensures
      var p, q := Group(prefix, delimiter, rows[0]).prefix, Rolled(prefix, delimiter, rows[1..], seen)[j].prefix;
      Less(p, q) && !(p <= q) && !(q <= p)
  {
    hide Group;
    hide Less;
    RolledAreGroups(prefix, delimiter, rows[1..], seen, j);
    var later := Rolled(prefix, delimiter, rows[1..], seen)[j];
    var k :| 0 <= k < |rows[1..]| && Group(prefix, delimiter, rows[1..][k]) == later;
    assert rows[1..][k] == rows[k + 1];
    GroupsOrdered(prefix, delimiter, rows[0], rows[k + 1]);
  }

  // --- one page ---

  /** How many rows a page of `max` items goes through. */
  function PageEnd(prefix: string, delimiter: string, rows: seq<string>, seen: set<string>, max: nat): (n: nat)
    ensures n <= |rows|
    decreases |rows|
  {
    if max == 0 || rows == [] then 0
    else
      var item := Group(prefix, delimiter, rows[0]);
      1 + PageEnd(prefix, delimiter, rows[1..], Remember(item, seen), if Skips(item, seen) then max else max - 1)
  }

  /** A page shows the roll-up of the rows it went through, and these are the first items of the whole roll-up. */
  lemma {:induction false} PageShowsItsRows(prefix: string, delimiter: string, rows: seq<string>, seen: set<string>,
                                            max: nat)
    ensures
      var all, n := Rolled(prefix, delimiter, rows, seen), PageEnd(prefix, delimiter, rows, seen, max);
      && Rolled(prefix, delimiter, rows[..n], seen) == all[..Min(max, |all|)]
      && (n < |rows| ==> |all| >= max)
    decreases |rows|
  {
    var all, n := Rolled(prefix, delimiter, rows, seen), PageEnd(prefix, delimiter, rows, seen, max);
    if max == 0 || rows == [] {
      assert rows[..n] == [] && all[..Min(max, |all|)] == [];
    } else {
      var item := Group(prefix, delimiter, rows[0]);
      var max' := if Skips(item, seen) then max else max - 1;
      PageShowsItsRows(prefix, delimiter, rows[1..], Remember(item, seen), max');
      assert rows[..n][1..] == rows[1..][..n - 1] && rows[..n][0] == rows[0];
      FirstRow(prefix, delimiter, rows, seen, max);
      FirstRow(prefix, delimiter, rows[..n], seen, max);
      hide Rolled;
      hide PageEnd;
      hide Group;
    }
  }

  datatype Page = Page(contents: seq<string>, commonPrefixes: seq<string>, truncated: bool, nextToken: string)

  /** The response lists hold the items' keys and common prefixes. */
  ghost predicate Shown(contents: seq<string>, prefixes: seq<string>, items: seq<Item>) {
    contents == KeysOf(items) && prefixes == PrefixesOf(items)
  }

  lemma ShowOneMore(contents: seq<string>, prefixes: seq<string>, items: seq<Item>, item: Item)
    requires Shown(contents, prefixes, items)
    ensures Shown(if item.Key? then contents + [item.key] else contents,
                  if item.Common? then prefixes + [item.prefix] else prefixes, items + [item])
  {
    Snoc(items, item);
  }

  /** A page in the making: its items so far, the rows gone through, and the set kept. */
  ghost predicate InProgress(prefix: string, delimiter: string, rows: seq<string>, max: nat,
                             pos: nat, seen: set<string>, items: seq<Item>)
  {
    && pos <= |rows| && |items| <= max
    && items + Rolled(prefix, delimiter, rows[pos..], seen) == Rolled(prefix, delimiter, rows, {})
    && pos + PageEnd(prefix, delimiter, rows[pos..], seen, max - |items|) == PageEnd(prefix, delimiter, rows, {}, max)
  }

  lemma NextRow(prefix: string, delimiter: string, rows: seq<string>, max: nat,
                pos: nat, seen: set<string>, items: seq<Item>)
    requires InProgress(prefix, delimiter, rows, max, pos, seen, items) && pos < |rows| && |items| < max
    ensures
      var item := Group(prefix, delimiter, rows[pos]);
      InProgress(prefix, delimiter, rows, max, pos + 1, Remember(item, seen),
                 if Skips(item, seen) then items else items + [item])
  {
    hide Group;
    var item := Group(prefix, delimiter, rows[pos]);
    var rest := rows[pos..];
    assert rest[0] == rows[pos] && rest[1..] == rows[pos + 1..];
    FirstRow(prefix, delimiter, rest, seen, max - |items|);
    hide Rolled;
    hide PageEnd;
    Assoc(items, [item], Rolled(prefix, delimiter, rows[pos + 1..], Remember(item, seen)));
    assert [] + Rolled(prefix, delimiter, rows[pos + 1..], Remember(item, seen))
        == Rolled(prefix, delimiter, rows[pos + 1..], Remember(item, seen));
  }

  lemma FirstRow(prefix: string, delimiter: string, rows: seq<string>, seen: set<string>, max: nat)
    requires rows != [] && max > 0
    ensures
      var item := Group(prefix, delimiter, rows[0]);
      var seen' := Remember(item, seen);
      && Rolled(prefix, delimiter, rows, seen) ==
         (if Skips(item, seen) then [] else [item]) + Rolled(prefix, delimiter, rows[1..], seen')
      && PageEnd(prefix, delimiter, rows, seen, max) ==
         1 + PageEnd(prefix, delimiter, rows[1..], seen', if Skips(item, seen) then max else max - 1)
  {
    hide Group;
  }

  /** The finished page: the first `max` items of the roll-up, truncated exactly if rows are left. */
  ghost predicate IsPage(prefix: string, delimiter: string, rows: seq<string>, max: nat, page: Page, items: seq<Item>) {
    var all, n := Rolled(prefix, delimiter, rows, {}), PageEnd(prefix, delimiter, rows, {}, max);
    && items == all[..Min(max, |all|)]
    && page.contents == KeysOf(items) && page.commonPrefixes == PrefixesOf(items)
    && page.truncated == (n < |rows|)
    && (page.truncated ==> n > 0 && page.nextToken == rows[n - 1])
  }

  lemma Finished(prefix: string, delimiter: string, rows: seq<string>, max: nat,
                 pos: nat, seen: set<string>, items: seq<Item>)
    requires InProgress(prefix, delimiter, rows, max, pos, seen, items) && (pos == |rows| || |items| == max)
    ensures
      var all := Rolled(prefix, delimiter, rows, {});
      items == all[..Min(max, |all|)] && PageEnd(prefix, delimiter, rows, {}, max) == pos
  {
    if pos == |rows| {
      assert rows[pos..] == [];
    }
  }

  // --- what a page shows ---

  lemma {:induction false} RolledMembers(prefix: string, delimiter: string, rows: seq<string>, seen: set<string>,
                                         x: Item)
    ensures x in Rolled(prefix, delimiter, rows, seen) <==>
            !Skips(x, seen) && exists k :: k in rows && Group(prefix, delimiter, k) == x
    decreases |rows|
  {
    hide Group;
    if rows != [] {
      var item := Group(prefix, delimiter, rows[0]);
      RolledMembers(prefix, delimiter, rows[1..], Remember(item, seen), x);
      assert rows == [rows[0]] + rows[1..];
      if item == x {
        assert rows[0] in rows;
      }
    }
  }

  lemma {:induction false} ItemMembers(items: seq<Item>)
    ensures forall k :: k in KeysOf(items) <==> Item.Key(k) in items
    ensures forall p :: p in PrefixesOf(items) <==> Common(p) in items
    decreases |items|
  {
    if items != [] {
      var n := |items| - 1;
      ItemMembers(items[..n]);
      assert items == items[..n] + [items[n]];
    }
  }

  /** The stored keys that a page goes through: behind the start, and not behind the token if there is one. */
  predicate GoneThrough(keys: seq<string>, prefix: string, startAfter: string, page: Page, k: string) {
    && k in keys && Less(startAfter, k) && Matches(k, prefix)
    && (page.truncated ==> !Less(page.nextToken, k))
  }

  lemma RowsGoneThrough(keys: seq<string>, prefix: string, startAfter: string, page: Page, n: nat, k: string)
    requires Ascending(keys) && n <= |Select(keys, prefix, startAfter)|
    requires page.truncated <==> n < |Select(keys, prefix, startAfter)|
    requires page.truncated ==> n > 0 && page.nextToken == Select(keys, prefix, startAfter)[n - 1]
    ensures k in Select(keys, prefix, startAfter)[..n] <==> GoneThrough(keys, prefix, startAfter, page, k)
  {
    var rows := Select(keys, prefix, startAfter);
    SelectMembers(keys, prefix, startAfter, k);
    SelectAscending(keys, prefix, startAfter);
    hide Select, Matches;
    if k in rows {
      var i :| 0 <= i < |rows| && rows[i] == k;
      if i < n {
        assert rows[..n][i] == k;
        if page.truncated {
          LessIrreflexive(k);
          if i < n - 1 {
            LessAsymmetric(k, page.nextToken);
          }
        }
      } else if k in rows[..n] {
        var j :| 0 <= j < n && rows[j] == k;
        LessIrreflexive(k);
      }
    }
  }

  /**
   * A page shows exactly what it goes through: as a key, every key that no common prefix covers; as a common
   * prefix, everything that one of the keys rolls up to.
   */
  lemma PageMembers(keys: seq<string>, prefix: string, delimiter: string, startAfter: string, max: nat, page: Page,
                    items: seq<Item>)
    requires Ascending(keys) && IsPage(prefix, delimiter, Select(keys, prefix, startAfter), max, page, items)
    ensures forall k :: k in page.contents <==>
              GoneThrough(keys, prefix, startAfter, page, k) && !Covered(prefix, delimiter, k)
    ensures forall p :: p in page.commonPrefixes <==>
              exists k :: GoneThrough(keys, prefix, startAfter, page, k) && RollsUpTo(prefix, delimiter, k, p)
  {
    forall k | GoneThrough(keys, prefix, startAfter, page, k)
      ensures Group(prefix, delimiter, k).Key? <==> !Covered(prefix, delimiter, k)
      ensures forall p :: Group(prefix, delimiter, k) == Common(p) <==> RollsUpTo(prefix, delimiter, k, p)
    {
      MatchesExactly(k, prefix);
      GroupMeans(prefix, delimiter, k);
    }
    hide Covered, RollsUpTo;
    PageGroups(keys, prefix, delimiter, startAfter, max, page, items);
  }

  lemma PageGroups(keys: seq<string>, prefix: string, delimiter: string, startAfter: string, max: nat, page: Page,
                   items: seq<Item>)
    requires Ascending(keys) && IsPage(prefix, delimiter, Select(keys, prefix, startAfter), max, page, items)
    ensures forall k :: k in page.contents <==>
              GoneThrough(keys, prefix, startAfter, page, k) && Group(prefix, delimiter, k).Key?
    ensures forall p :: p in page.commonPrefixes <==>
              exists k :: GoneThrough(keys, prefix, startAfter, page, k) && Group(prefix, delimiter, k) == Common(p)
  {
    var rows := Select(keys, prefix, startAfter);
    var n := PageEnd(prefix, delimiter, rows, {}, max);
    PageShowsItsRows(prefix, delimiter, rows, {}, max);
    ItemMembers(items);
    hide Select, GoneThrough, KeysOf, PrefixesOf, Group, Rolled, Ascending;
    forall k
      ensures k in rows[..n] <==> GoneThrough(keys, prefix, startAfter, page, k)
    {
      RowsGoneThrough(keys, prefix, startAfter, page, n, k);
    }
    forall k
      ensures k in page.contents <==>
              GoneThrough(keys, prefix, startAfter, page, k) && Group(prefix, delimiter, k).Key?
    {
      RolledMembers(prefix, delimiter, rows[..n], {}, Item.Key(k));
      KeyOfGroup(prefix, delimiter, rows[..n], k);
    }
    forall p
      ensures p in page.commonPrefixes <==>
              exists k :: GoneThrough(keys, prefix, startAfter, page, k) && Group(prefix, delimiter, k) == Common(p)
    {
      RolledMembers(prefix, delimiter, rows[..n], {}, Common(p));
    }
  }

  lemma KeyOfGroup(prefix: string, delimiter: string, rows: seq<string>, k: string)
    ensures (exists j :: j in rows && Group(prefix, delimiter, j) == Item.Key(k)) <==>
            k in rows && Group(prefix, delimiter, k).Key?
  {
    GroupKey(prefix, delimiter, k);
    forall j | j in rows && Group(prefix, delimiter, j) == Item.Key(k)
      ensures j == k
    {
      GroupKey(prefix, delimiter, j);
    }
    hide Group;
    if k in rows && Group(prefix, delimiter, k).Key? {
      assert Group(prefix, delimiter, k) == Item.Key(k);
    }
  }

  /** The rows still to come from a cursor that stands on the last row gone through. */
  lemma RowsFromCursor(keys: seq<string>, prefix: string, startAfter: string, pos: nat, cursor: string)
    requires Ascending(keys) && pos <= |Select(keys, prefix, startAfter)|
    requires cursor == if pos == 0 then startAfter else Select(keys, prefix, startAfter)[pos - 1]
    ensures Select(keys, prefix, cursor) == Select(keys, prefix, startAfter)[pos..]
  {
    if pos > 0 {
      SelectFromRow(keys, prefix, startAfter, pos - 1);
    }
  }

  /** keyHasMoreAfter: a failed query counts as "no". */
  method KeyHasMoreAfter(keys: seq<string>, prefix: string, after: string, calm: bool) returns (more: bool)
    ensures more ==> Select(keys, prefix, after) != []
    ensures calm ==> (more <==> Select(keys, prefix, after) != [])
  {
    var ok, rows, _ := ListObjects(keys, prefix, after, 1, calm);
    more := ok && |rows| > 0;
  }

  /** The query for a batch: it asks for at least one row, and all rows it gets lie behind the cursor. */
  method NextBatch(keys: seq<string>, prefix: string, cursor: string, limit: int, calm: bool)
    returns (ok: bool, batch: seq<string>, more: bool)
    requires limit >= 1
    ensures calm ==> ok
    ensures ok ==>
              var all := Select(keys, prefix, cursor);
              batch == all[..Min(limit, |all|)] && more == (|all| > limit)
    ensures ok ==> forall i :: 0 <= i < |batch| ==> Less(cursor, batch[i])
  {
    ok, batch, more := ListObjects(keys, prefix, cursor, limit, calm);
    if ok {
      forall i | 0 <= i < |batch|
        ensures Less(cursor, batch[i])
      {
        SelectedAreKeys(keys, prefix, cursor, i);
      }
    }
  }

  /** The loop's variables: cursor, the response lists, the count, the last key shown and seenPrefixes. */
  datatype Work = Work(cursor: string, contents: seq<string>, prefixes: seq<string>, emitted: nat,
                       lastEmittedKey: string, seen: set<string>)

  /** The variables after `pos` rows, when `items` have been shown. */
  ghost predicate WorkOk(prefix: string, delimiter: string, rows: seq<string>, max: nat, startAfter: string,
                         pos: nat, items: seq<Item>, w: Work)
  {
    && InProgress(prefix, delimiter, rows, max, pos, w.seen, items)
    && w.emitted == |items| && Shown(w.contents, w.prefixes, items)
    && w.cursor == (if pos == 0 then startAfter else rows[pos - 1])
  }

  lemma RowSkipped(prefix: string, delimiter: string, rows: seq<string>, max: nat, startAfter: string,
                   pos: nat, items: seq<Item>, w: Work)
    requires WorkOk(prefix, delimiter, rows, max, startAfter, pos, items, w) && pos < |rows| && w.emitted < max
    requires Skips(Group(prefix, delimiter, rows[pos]), w.seen)
    ensures WorkOk(prefix, delimiter, rows, max, startAfter, pos + 1, items, w.(cursor := rows[pos]))
  {
    NextRow(prefix, delimiter, rows, max, pos, w.seen, items);
    assert Remember(Group(prefix, delimiter, rows[pos]), w.seen) == w.seen;
    hide InProgress;
    hide Group;
  }

  lemma RowShown(prefix: string, delimiter: string, rows: seq<string>, max: nat, startAfter: string,
                 pos: nat, items: seq<Item>, w: Work)
    requires WorkOk(prefix, delimiter, rows, max, startAfter, pos, items, w) && pos < |rows| && w.emitted < max
    requires !Skips(Group(prefix, delimiter, rows[pos]), w.seen)
    ensures
      var key, item := rows[pos], Group(prefix, delimiter, rows[pos]);
      var w' := if item.Common?
                then w.(cursor := key, seen := w.seen + {item.prefix}, prefixes := w.prefixes + [item.prefix])
                else w.(cursor := key, contents := w.contents + [key]);
      WorkOk(prefix, delimiter, rows, max, startAfter, pos + 1, items + [item],
             w'.(emitted := w.emitted + 1, lastEmittedKey := key))
  {
    NextRow(prefix, delimiter, rows, max, pos, w.seen, items);
    GroupKey(prefix, delimiter, rows[pos]);
    ShowOneMore(w.contents, w.prefixes, items, Group(prefix, delimiter, rows[pos]));
    hide InProgress;
    hide Shown;
    hide Group;
  }

  /** The loop over one batch, which starts at row `first`. It stops when the page is full. */
  method TakeBatch(prefix: string, delimiter: string, ghost rows: seq<string>, maxKeys: nat, ghost startAfter: string,
                   batch: seq<string>, ghost first: nat, ghost items0: seq<Item>, w0: Work)
    returns (full: bool, w: Work, ghost pos: nat, ghost items: seq<Item>)
    requires WorkOk(prefix, delimiter, rows, maxKeys, startAfter, first, items0, w0) && w0.emitted < maxKeys
    requires first + |batch| <= |rows| && batch == rows[first..first + |batch|] && |batch| <= maxKeys - w0.emitted
    ensures pos <= |rows| && WorkOk(prefix, delimiter, rows, maxKeys, startAfter, pos, items, w)
    ensures pos == first + |batch|
    ensures full == (w.emitted == maxKeys) && w.emitted <= maxKeys
    ensures full ==> w.lastEmittedKey == w.cursor && |batch| == maxKeys - w0.emitted
  {
    hide WorkOk, Group;
    w, pos, items := w0, first, items0;
    var j := 0;
    while j < |batch|
      invariant 0 <= j <= |batch| && pos == first + j
      invariant WorkOk(prefix, delimiter, rows, maxKeys, startAfter, pos, items, w)
      invariant w.emitted < maxKeys && w.emitted <= w0.emitted + j
    {
      var key := batch[j];
      assert key == rows[pos];
      var item := Group(prefix, delimiter, key);
      if Skips(item, w.seen) {
        RowSkipped(prefix, delimiter, rows, maxKeys, startAfter, pos, items, w);
        w, pos, j := w.(cursor := key), pos + 1, j + 1;
        continue;
      }
      RowShown(prefix, delimiter, rows, maxKeys, startAfter, pos, items, w);
      w := w.(cursor := key);
      if item.Common? {
        w := w.(seen := w.seen + {item.prefix}, prefixes := w.prefixes + [item.prefix]);
      } else {
        w := w.(contents := w.contents + [key]);
      }
      w := w.(emitted := w.emitted + 1, lastEmittedKey := key);
      items, pos, j := items + [item], pos + 1, j + 1;
      if w.emitted >= maxKeys {
        return true, w, pos, items;
      }
    }
    return false, w, pos, items;
  }

  /** listObjectsV2's loop, for a bucket whose keys are given in order. While it is calm there is a page. */
  method ListPage(keys: seq<string>, prefix: string, delimiter: string, startAfter: string, maxKeys: nat, calm: bool)
    returns (ok: bool, page: Page, ghost items: seq<Item>)
    requires Ascending(keys)
    ensures calm ==> ok
    ensures ok && maxKeys == 0 ==> page == Page([], [], false, "")
    ensures ok && maxKeys > 0 ==>
              IsPage(prefix, delimiter, Select(keys, prefix, startAfter), maxKeys, page, items)
  {
    hide Select;
    hide WorkOk;
    hide Ascending;
    hide IsPage;
    items := [];
    page := Page([], [], false, "");
    if maxKeys == 0 {
      return true, page, items;
    }
    ghost var rows := Select(keys, prefix, startAfter);
    ghost var pos := 0;
    var w := Work(startAfter, [], [], 0, "", {});
    var truncated := false;
    Start(prefix, delimiter, rows, maxKeys, startAfter);
    while true
      invariant pos <= |rows| && WorkOk(prefix, delimiter, rows, maxKeys, startAfter, pos, items, w)
      invariant w.emitted < maxKeys
      decreases |rows| - pos
    {
      var limit := maxKeys - w.emitted;
      CursorAt(keys, prefix, delimiter, rows, maxKeys, startAfter, pos, items, w);
      var got, batch, more := NextBatch(keys, prefix, w.cursor, limit, calm);
      if !got {
        return false, page, items;
      }
      if |batch| == 0 {
        break;
      }
      assert rows[pos..][..|batch|] == rows[pos..pos + |batch|];
      var full;
      full, w, pos, items := TakeBatch(prefix, delimiter, rows, maxKeys, startAfter, batch, pos, items, w);
      if full {
        truncated := more;
        if !truncated {
          CursorAt(keys, prefix, delimiter, rows, maxKeys, startAfter, pos, items, w);
          truncated := KeyHasMoreAfter(keys, prefix, w.cursor, calm);
        }
        break;
      }
      if !more {
        break;
      }
    }
    page := Page(w.contents, w.prefixes, truncated, if truncated then w.lastEmittedKey else "");
    Finish(prefix, delimiter, rows, maxKeys, startAfter, pos, items, w, page);
    return true, page, items;
  }

  lemma CursorAt(keys: seq<string>, prefix: string, delimiter: string, rows: seq<string>, max: nat, startAfter: string,
                 pos: nat, items: seq<Item>, w: Work)
    requires Ascending(keys) && rows == Select(keys, prefix, startAfter) && pos <= |rows|
    requires WorkOk(prefix, delimiter, rows, max, startAfter, pos, items, w)
    ensures Select(keys, prefix, w.cursor) == rows[pos..]
  {
    RowsFromCursor(keys, prefix, startAfter, pos, w.cursor);
  }

  lemma Finish(prefix: string, delimiter: string, rows: seq<string>, max: nat, startAfter: string,
               pos: nat, items: seq<Item>, w: Work, page: Page)
    requires WorkOk(prefix, delimiter, rows, max, startAfter, pos, items, w) && pos <= |rows|
    requires pos == |rows| || w.emitted == max
    requires page.contents == w.contents && page.commonPrefixes == w.prefixes && page.truncated == (pos < |rows|)
    requires page.truncated ==> pos > 0 && page.nextToken == w.cursor
    ensures IsPage(prefix, delimiter, rows, max, page, items)
  {
    Finished(prefix, delimiter, rows, max, pos, w.seen, items);
  }

  lemma Start(prefix: string, delimiter: string, rows: seq<string>, max: nat, startAfter: string)
    ensures WorkOk(prefix, delimiter, rows, max, startAfter, 0, [], Work(startAfter, [], [], 0, "", {}))
  {
    assert rows[0..] == rows;
    assert [] + Rolled(prefix, delimiter, rows, {}) == Rolled(prefix, delimiter, rows, {});
  }

  lemma GroupKey(prefix: string, delimiter: string, key: string)
    ensures Group(prefix, delimiter, key).Key? ==> Group(prefix, delimiter, key).key == key
  {
  }

  // --- whole listings ---

  lemma {:induction false} KeysOfCollapsed(items: seq<Item>)
    ensures KeysOf(Collapse(items)) == KeysOf(items)
    decreases |items|
  {
    if items != [] {
      var n := |items| - 1;
      KeysOfCollapsed(items[..n]);
      Snoc(Collapse(items[..n]), items[n]);
    }
  }

  lemma {:induction false} KeysOfJoined(a: seq<Item>, b: seq<Item>)
    ensures KeysOf(a + b) == KeysOf(a) + KeysOf(b)
    decreases |b|
  {
    if b == [] {
      assert a + b == a;
    } else {
      var n := |b| - 1;
      KeysOfJoined(a, b[..n]);
      assert a + b == (a + b[..n]) + [b[n]] && b == b[..n] + [b[n]];
      Snoc(a + b[..n], b[n]);
      Snoc(b[..n], b[n]);
    }
  }

  /** The keys a listing shows as themselves: the rows that no common prefix covers, in order. */
  function PlainKeys(prefix: string, delimiter: string, rows: seq<string>): seq<string> {
    if rows == [] then []
    else
      var n := |rows| - 1;
      PlainKeys(prefix, delimiter, rows[..n]) + if Covered(prefix, delimiter, rows[n]) then [] else [rows[n]]
  }

  lemma {:induction false} PlainKeysAreGroupKeys(prefix: string, delimiter: string, rows: seq<string>)
    requires AllUnder(prefix, rows)
    ensures KeysOf(Groups(prefix, delimiter, rows)) == PlainKeys(prefix, delimiter, rows)
    decreases |rows|
  {
    hide Group, Covered, RollsUpTo;
    if rows != [] {
      var n := |rows| - 1;
      PlainKeysAreGroupKeys(prefix, delimiter, rows[..n]);
      GroupMeans(prefix, delimiter, rows[n]);
      assert Groups(prefix, delimiter, rows)
          == Groups(prefix, delimiter, rows[..n]) + [Group(prefix, delimiter, rows[n])];
      Snoc(Groups(prefix, delimiter, rows[..n]), Group(prefix, delimiter, rows[n]));
    }
  }

  /** What the pages so far have shown, put together, is what the rows so far roll up to. */
  ghost predicate Accumulated(prefix: string, delimiter: string, rows: seq<string>, items: seq<Item>) {
    var groups := Groups(prefix, delimiter, rows);
    Collapse(items) == Collapse(groups) && KeysOf(items) == KeysOf(groups)
  }

  lemma AccumulatePage(prefix: string, delimiter: string, rows: seq<string>, pos: nat, n: nat,
                       items: seq<Item>, page: seq<Item>)
    requires Ascending(rows) && AllUnder(prefix, rows) && pos + n <= |rows|
    requires Accumulated(prefix, delimiter, rows[..pos], items)
    requires page == Rolled(prefix, delimiter, rows[pos..][..n], {})
    ensures Accumulated(prefix, delimiter, rows[..pos + n], items + page)
  {
    hide Ascending;
    hide AllUnder;
    hide Groups;
    hide Rolled;
    hide Collapse;
    hide KeysOf;
    var gone := rows[pos..][..n];
    Stretch(prefix, rows, pos, n);
    RolledIsCollapsed(prefix, delimiter, gone);
    GroupsJoined(prefix, delimiter, rows, pos, n);
    AccumulateItems(items, page, Groups(prefix, delimiter, rows[..pos]), Groups(prefix, delimiter, gone));
  }

  lemma AccumulateItems(items: seq<Item>, page: seq<Item>, before: seq<Item>, after: seq<Item>)
    requires Collapse(items) == Collapse(before) && KeysOf(items) == KeysOf(before) && page == Collapse(after)
    ensures Collapse(items + page) == Collapse(before + after) && KeysOf(items + page) == KeysOf(before + after)
  {
    hide *;
    CollapsePieces(items, page);
    CollapseIdempotent(after);
    CollapsePieces(before, after);
    KeysOfJoined(items, page);
    KeysOfJoined(before, after);
    KeysOfCollapsed(after);
  }

  /** The cut between two stretches of rows lies within one group. */
  predicate CutInGroup(a: seq<Item>, b: seq<Item>) {
    a != [] && b != [] && b[0].Common? && a[|a| - 1] == b[0]
  }

  lemma {:induction false} CollapseJoined(a: seq<Item>, b: seq<Item>)
    ensures b != [] ==> Collapse(b) != []
    ensures Collapse(a + b) == Collapse(a) + if CutInGroup(a, b) then Collapse(b)[1..] else Collapse(b)
    decreases |b|
  {
    CollapseNothing();
    hide Collapse;
    if b == [] {
      assert a + b == a && Collapse(a) + [] == Collapse(a);
    } else {
      var n := |b| - 1;
      var front, item := b[..n], b[n];
      assert b == front + [item] && a + b == (a + front) + [item];
      CollapseSnoc(a + front, item);
      CollapseSnoc(front, item);
      JoinedLast(a, front);
      if n == 0 {
        assert a + front == a && [] + [item] == [item] && [item][1..] == [];
        assert Collapse(a) + [] == Collapse(a);
      } else {
        CollapseJoined(a, front);
        assert b[0] == front[0];
        var c := Collapse(front);
        TailSnoc(c, item);
        Glue(Collapse(a), c[1..], item);
        Glue(Collapse(a), c, item);
      }
    }
  }

  lemma CollapseNothing()
    ensures Collapse([]) == []
  {
  }

  lemma TailSnoc(c: seq<Item>, item: Item)
    requires c != []
    ensures (c + [item])[1..] == c[1..] + [item]
  {
  }

  /** The key behind a cut falls under the same common prefix as the key before it. */
  predicate CutsGroup(prefix: string, delimiter: string, rows: seq<string>, n: nat) {
    0 < n < |rows| && Group(prefix, delimiter, rows[n]).Common?
    && Group(prefix, delimiter, rows[n - 1]) == Group(prefix, delimiter, rows[n])
  }

  /** Where a group is cut, the rows on either side roll up to the same common prefix. */
  lemma CutsGroupMeans(prefix: string, delimiter: string, rows: seq<string>, n: nat)
    requires AllUnder(prefix, rows) && 0 < n < |rows|
    ensures CutsGroup(prefix, delimiter, rows, n) <==>
            exists p :: RollsUpTo(prefix, delimiter, rows[n - 1], p) && RollsUpTo(prefix, delimiter, rows[n], p)
  {
    hide Group, RollsUpTo, Covered;
    GroupMeans(prefix, delimiter, rows[n - 1]);
    GroupMeans(prefix, delimiter, rows[n]);
    if CutsGroup(prefix, delimiter, rows, n) {
      var p := Group(prefix, delimiter, rows[n]).prefix;
      assert RollsUpTo(prefix, delimiter, rows[n - 1], p) && RollsUpTo(prefix, delimiter, rows[n], p);
    }
  }

  // --- how much a page shows, and in which order ---

  lemma {:induction false} ItemCount(items: seq<Item>)
    ensures |KeysOf(items)| + |PrefixesOf(items)| == |items|
    decreases |items|
  {
    if items != [] {
      ItemCount(items[..|items| - 1]);
    }
  }

  /** A page has at most `max` items, and just as many when it is truncated. */
  lemma PageIsFullOrLast(prefix: string, delimiter: string, rows: seq<string>, max: nat, page: Page, items: seq<Item>)
    requires IsPage(prefix, delimiter, rows, max, page, items)
    ensures |page.contents| + |page.commonPrefixes| <= max
    ensures page.truncated ==> |page.contents| + |page.commonPrefixes| == max
  {
    ItemCount(items);
    PageShowsItsRows(prefix, delimiter, rows, {}, max);
    hide Rolled, PageEnd;
  }

  lemma {:induction false} PlainKeysAscend(prefix: string, delimiter: string, rows: seq<string>)
    requires Ascending(rows)
    ensures Ascending(PlainKeys(prefix, delimiter, rows))
    ensures forall k :: k in PlainKeys(prefix, delimiter, rows) ==> k in rows
    decreases |rows|
  {
    hide Covered, Less;
    if rows != [] {
      var n := |rows| - 1;
      PlainKeysAscend(prefix, delimiter, rows[..n]);
      assert rows == rows[..n] + [rows[n]];
      var front := PlainKeys(prefix, delimiter, rows[..n]);
      forall i | 0 <= i < |front|
        ensures Less(front[i], rows[n])
      {
        assert front[i] in rows[..n];
      }
    }
  }

  /** A page's keys are in order. */
  lemma PageAscends(keys: seq<string>, prefix: string, delimiter: string, startAfter: string, max: nat, page: Page,
                    items: seq<Item>)
    requires Ascending(keys) && IsPage(prefix, delimiter, Select(keys, prefix, startAfter), max, page, items)
    ensures Ascending(page.contents)
  {
    hide Select, Group, Rolled, Collapse, KeysOf, PrefixesOf, Less, PlainKeys;
    var rows := Select(keys, prefix, startAfter);
    var n := PageEnd(prefix, delimiter, rows, {}, max);
    SelectAscending(keys, prefix, startAfter);
    RowsUnderPrefix(keys, prefix, startAfter);
    PageShowsItsRows(prefix, delimiter, rows, {}, max);
    RolledIsCollapsed(prefix, delimiter, rows[..n]);
    KeysOfCollapsed(Groups(prefix, delimiter, rows[..n]));
    PlainKeysAreGroupKeys(prefix, delimiter, rows[..n]);
    PlainKeysAscend(prefix, delimiter, rows[..n]);
  }

  /** Two stretches of rows roll up to what they roll up to together exactly if no group is cut. */
  lemma StretchesJoinIffNoGroupIsCut(prefix: string, delimiter: string, rows: seq<string>, n: nat)
    requires Ascending(rows) && AllUnder(prefix, rows) && n <= |rows|
    ensures
      var a, b := Rolled(prefix, delimiter, rows[..n], {}), Rolled(prefix, delimiter, rows[n..], {});
      a + b == Rolled(prefix, delimiter, rows, {}) <==> !CutsGroup(prefix, delimiter, rows, n)
  {
    hide Ascending, AllUnder, Group, Rolled, Collapse;
    Stretch(prefix, rows, 0, n);
    Stretch(prefix, rows, n, |rows| - n);
    assert rows[0..] == rows && rows[n..][..|rows| - n] == rows[n..] && rows[..|rows|] == rows;
    RolledIsCollapsed(prefix, delimiter, rows[..n]);
    RolledIsCollapsed(prefix, delimiter, rows[n..]);
    RolledIsCollapsed(prefix, delimiter, rows);
    GroupsJoined(prefix, delimiter, rows, n, |rows| - n);
    CollapseJoined(Groups(prefix, delimiter, rows[..n]), Groups(prefix, delimiter, rows[n..]));
  }

  /**
   * Two consecutive pages: the second goes on right behind the first, and they show together what their
   * rows roll up to, unless the first ends within a group; then, and only then, the second repeats the
   * common prefix that the first ends with.
   */
  lemma ConsecutivePages(keys: seq<string>, prefix: string, delimiter: string, startAfter: string, max: nat,
                         first: Page, shown: seq<Item>, second: Page, shown': seq<Item>)
    requires Ascending(keys) && max > 0
    requires IsPage(prefix, delimiter, Select(keys, prefix, startAfter), max, first, shown) && first.truncated
    requires IsPage(prefix, delimiter, Select(keys, prefix, first.nextToken), max, second, shown')
    ensures
      var rows := Select(keys, prefix, startAfter);
      var n := PageEnd(prefix, delimiter, rows, {}, max);
      var m := PageEnd(prefix, delimiter, rows[n..], {}, max);
      && 0 < n < |rows| && 0 < m && n + m <= |rows|
      && (shown + shown' == Rolled(prefix, delimiter, rows[..n + m], {}) <==> !CutsGroup(prefix, delimiter, rows, n))
      && shown != [] && shown' != []
      && (CutsGroup(prefix, delimiter, rows, n) <==> shown'[0].Common? && shown[|shown| - 1] == shown'[0])
  {
    hide *;
    var rows := Select(keys, prefix, startAfter);
    var n := PageEnd(prefix, delimiter, rows, {}, max);
    RowsUnderPrefix(keys, prefix, startAfter);
    PageIs(prefix, delimiter, rows, max, first, shown);
    RowsFromCursor(keys, prefix, startAfter, n, first.nextToken);
    PageIs(prefix, delimiter, rows[n..], max, second, shown');
    PageIsNotEmpty(prefix, delimiter, rows[n..], max);
    var m := PageEnd(prefix, delimiter, rows[n..], {}, max);
    TwoStretches(prefix, delimiter, rows, n, m);
  }

  lemma PageIsNotEmpty(prefix: string, delimiter: string, rows: seq<string>, max: nat)
    requires rows != [] && max > 0
    ensures PageEnd(prefix, delimiter, rows, {}, max) > 0
  {
  }

  lemma TwoStretches(prefix: string, delimiter: string, rows: seq<string>, n: nat, m: nat)
    requires Ascending(rows) && AllUnder(prefix, rows) && 0 < n < |rows| && 0 < m && n + m <= |rows|
    ensures
      var a, b := Rolled(prefix, delimiter, rows[..n], {}), Rolled(prefix, delimiter, rows[n..][..m], {});
      && (a + b == Rolled(prefix, delimiter, rows[..n + m], {}) <==> !CutsGroup(prefix, delimiter, rows, n))
      && a != [] && b != []
      && (CutsGroup(prefix, delimiter, rows, n) <==> b[0].Common? && a[|a| - 1] == b[0])
  {
    hide Ascending, AllUnder, Group, Rolled, Collapse;
    var both := rows[..n + m];
    assert both[..n] == rows[..n] && both[n..] == rows[n..][..m] && both[n] == rows[n] && both[n - 1] == rows[n - 1];
    Stretch(prefix, rows, 0, n + m);
    assert rows[0..] == rows;
    StretchesJoinIffNoGroupIsCut(prefix, delimiter, both, n);
    Stretch(prefix, both, 0, n);
    Stretch(prefix, both, n, m);
    assert both[0..] == both && both[n..][..m] == both[n..];
    RolledIsCollapsed(prefix, delimiter, both[..n]);
    RolledIsCollapsed(prefix, delimiter, both[n..]);
    CollapseKeepsLast(Groups(prefix, delimiter, both[..n]));
    CollapseKeepsFirst(Groups(prefix, delimiter, both[n..]));
  }

  lemma {:induction false} CollapseKeepsFirst(items: seq<Item>)
    requires items != []
    ensures Collapse(items) != [] && Collapse(items)[0] == items[0]
    decreases |items|
  {
    var n := |items| - 1;
    if n > 0 {
      CollapseKeepsFirst(items[..n]);
    } else {
      assert Collapse(items[..0]) == [];
    }
  }

  /** An instance: with one item to a page, the keys a/1 and a/2 make two pages that both show a/. */
  lemma PrefixShownTwice()
    ensures
      var keys, a := ["a/1", "a/2"], Common("a/");
      && Ascending(keys) && Select(keys, "", "") == keys && Select(keys, "", "a/1") == ["a/2"]
      && IsPage("", "/", keys, 1, Page([], ["a/"], true, "a/1"), [a])
      && IsPage("", "/", ["a/2"], 1, Page([], ["a/"], false, ""), [a])
      && Rolled("", "/", keys, {}) == [a]
  {
    SlashAt("1");
    SlashAt("2");
    assert "a/" + "1" == "a/1" && "a/" + "2" == "a/2";
    SelectTwo();
    OneGroup("", "/", "a/1", "a/2", "a/");
    hide *;
  }

  lemma OneGroup(prefix: string, delimiter: string, k: string, l: string, p: string)
    requires Group(prefix, delimiter, k) == Group(prefix, delimiter, l) == Common(p)
    ensures Rolled(prefix, delimiter, [k, l], {}) == [Common(p)]
    ensures IsPage(prefix, delimiter, [k, l], 1, Page([], [p], true, k), [Common(p)])
    ensures IsPage(prefix, delimiter, [l], 1, Page([], [p], false, ""), [Common(p)])
  {
    hide Group, Rolled, PageEnd;
    var a := Common(p);
    assert [k, l][1..] == [l] && [l][1..] == [];
    assert Remember(a, {}) == {p} && Remember(a, {p}) == {p};
    EmptyRows(prefix, delimiter, {p});
    FirstRow(prefix, delimiter, [l], {}, 1);
    FirstRow(prefix, delimiter, [l], {p}, 1);
    FirstRow(prefix, delimiter, [k, l], {}, 1);
    NoItems(prefix, delimiter, [l], {p});
    assert Rolled(prefix, delimiter, [l], {}) == [a] && Rolled(prefix, delimiter, [k, l], {}) == [a];
    OneItem(p);
    hide KeysOf, PrefixesOf;
  }

  lemma EmptyRows(prefix: string, delimiter: string, seen: set<string>)
    ensures Rolled(prefix, delimiter, [], seen) == []
  {
  }

  lemma NoItems(prefix: string, delimiter: string, rows: seq<string>, seen: set<string>)
    ensures PageEnd(prefix, delimiter, rows, seen, 0) == 0 && PageEnd(prefix, delimiter, [], seen, 0) == 0
  {
  }

  lemma OneItem(p: string)
    ensures KeysOf([Common(p)]) == [] && PrefixesOf([Common(p)]) == [p]
  {
    assert KeysOf([Common(p)]) == KeysOf([]) + [];
    assert PrefixesOf([Common(p)]) == PrefixesOf([]) + [p];
  }

  lemma SlashAt(rest: string)
    ensures Group("", "/", "a/" + rest) == Common("a/")
  {
    var key := "a/" + rest;
    assert key[0] == 'a' && key[1] == '/';
    assert key[1..][0] == '/' && "/" <= key[1..];
    assert Index(key[1..], "/") == 0;
    assert !("/" <= key) && Index(key, "/") == 1;
    assert TrimPrefix(key, "") == key;
    assert "" + key[..2] == "a/";
  }

  lemma SelectTwo()
    ensures Ascending(["a/1", "a/2"])
    ensures Select(["a/1", "a/2"], "", "") == ["a/1", "a/2"] && Select(["a/1", "a/2"], "", "a/1") == ["a/2"]
  {
    var k, l := "a/1", "a/2";
    assert Less(k[2..], l[2..]);
    assert k[1..][1..] == k[2..] && l[1..][1..] == l[2..];
    assert Less(k[1..], l[1..]);
    assert Less(k, l);
    LessIrreflexive(k);
    MatchesExactly(k, "");
    MatchesExactly(l, "");
    var keys := [k, l];
    assert keys[1..] == [l] && [l][1..] == [];
    assert Select([l], "", "") == [l] && Select([l], "", k) == [l];
  }

  lemma RowsUnderPrefix(keys: seq<string>, prefix: string, startAfter: string)
    requires Ascending(keys)
    ensures Ascending(Select(keys, prefix, startAfter)) && AllUnder(prefix, Select(keys, prefix, startAfter))
  {
    SelectAscending(keys, prefix, startAfter);
    forall i | 0 <= i < |Select(keys, prefix, startAfter)|
      ensures prefix <= Select(keys, prefix, startAfter)[i]
    {
      SelectedAreKeys(keys, prefix, startAfter, i);
    }
  }

  lemma TurnPage(keys: seq<string>, prefix: string, delimiter: string, startAfter: string, max: nat,
                 pos: nat, token: string, items: seq<Item>, page: Page, shown: seq<Item>)
    requires Ascending(keys) && max > 0 && pos <= |Select(keys, prefix, startAfter)|
    requires Accumulated(prefix, delimiter, Select(keys, prefix, startAfter)[..pos], items)
    requires Select(keys, prefix, token) == Select(keys, prefix, startAfter)[pos..]
    requires IsPage(prefix, delimiter, Select(keys, prefix, token), max, page, shown)
    ensures
      var rows := Select(keys, prefix, startAfter);
      var pos' := pos + PageEnd(prefix, delimiter, rows[pos..], {}, max);
      && pos' <= |rows| && Accumulated(prefix, delimiter, rows[..pos'], items + shown)
      && page.truncated == (pos' < |rows|)
      && (page.truncated ==> pos' > pos && Select(keys, prefix, page.nextToken) == rows[pos'..])
  {
    hide *;
    var rows := Select(keys, prefix, startAfter);
    var n := PageEnd(prefix, delimiter, rows[pos..], {}, max);
    PageIs(prefix, delimiter, rows[pos..], max, page, shown);
    RowsUnderPrefix(keys, prefix, startAfter);
    AccumulatePage(prefix, delimiter, rows, pos, n, items, shown);
    if page.truncated {
      assert rows[pos..][n - 1] == rows[pos + n - 1];
      RowsFromCursor(keys, prefix, startAfter, pos + n, page.nextToken);
    }
  }

  /** A page is the roll-up of the rows it went through, and its token is the last of them. */
  lemma PageIs(prefix: string, delimiter: string, rows: seq<string>, max: nat, page: Page, items: seq<Item>)
    requires IsPage(prefix, delimiter, rows, max, page, items)
    ensures
      var n := PageEnd(prefix, delimiter, rows, {}, max);
      && n <= |rows| && items == Rolled(prefix, delimiter, rows[..n], {})
      && page.contents == KeysOf(items) && page.commonPrefixes == PrefixesOf(items)
      && page.truncated == (n < |rows|)
      && (page.truncated ==> n > 0 && page.nextToken == rows[n - 1])
  {
    PageShowsItsRows(prefix, delimiter, rows, {}, max);
  }

  // --- a client that follows continuation tokens ---

  /** Where the i-th page starts. */
  function TokenAt(startAfter: string, pages: seq<Page>, i: nat): string
    requires i <= |pages|
  {
    if i == 0 then startAfter else pages[i - 1].nextToken
  }

  /** The i-th page is the one from the token before it. */
  ghost predicate IsPageAt(keys: seq<string>, prefix: string, delimiter: string, startAfter: string, max: nat,
                           pages: seq<Page>, shown: seq<seq<Item>>, i: nat)
    requires i < |pages| == |shown|
  {
    IsPage(prefix, delimiter, Select(keys, prefix, TokenAt(startAfter, pages, i)), max, pages[i], shown[i])
  }

  /** Every page is the one from the token before it, and all but possibly the last are truncated. */
  ghost predicate Chained(keys: seq<string>, prefix: string, delimiter: string, startAfter: string, max: nat,
                          pages: seq<Page>, shown: seq<seq<Item>>) {
    && |shown| == |pages|
    && (forall i :: 0 <= i < |pages| ==> IsPageAt(keys, prefix, delimiter, startAfter, max, pages, shown, i))
    && (forall i :: 0 <= i < |pages| - 1 ==> pages[i].truncated)
  }

  /** A whole listing: pages chained up to the first that is not truncated. */
  ghost predicate IsListing(keys: seq<string>, prefix: string, delimiter: string, startAfter: string, max: nat,
                            pages: seq<Page>, shown: seq<seq<Item>>) {
    && Chained(keys, prefix, delimiter, startAfter, max, pages, shown)
    && pages != [] && !pages[|pages| - 1].truncated
  }

  lemma ChainedAppend(keys: seq<string>, prefix: string, delimiter: string, startAfter: string, max: nat,
                      pages: seq<Page>, shown: seq<seq<Item>>, page: Page, items: seq<Item>)
    requires Chained(keys, prefix, delimiter, startAfter, max, pages, shown)
    requires pages != [] ==> pages[|pages| - 1].truncated
    requires IsPage(prefix, delimiter, Select(keys, prefix, TokenAt(startAfter, pages, |pages|)), max, page, items)
    ensures Chained(keys, prefix, delimiter, startAfter, max, pages + [page], shown + [items])
    ensures TokenAt(startAfter, pages + [page], |pages| + 1) == page.nextToken
  {
    hide IsPage, Select;
    var all, both := pages + [page], shown + [items];
    forall i | 0 <= i < |all|
      ensures IsPageAt(keys, prefix, delimiter, startAfter, max, all, both, i)
    {
      TokenOfPrefix(startAfter, pages, page, i);
      hide TokenAt;
      if i < |pages| {
        assert IsPageAt(keys, prefix, delimiter, startAfter, max, pages, shown, i);
        assert all[i] == pages[i] && both[i] == shown[i];
      }
    }
    hide IsPageAt;
    forall i | 0 <= i < |all| - 1
      ensures all[i].truncated
    {
      assert all[i] == pages[i];
    }
  }

  lemma TokenOfPrefix(startAfter: string, pages: seq<Page>, page: Page, i: nat)
    requires i <= |pages|
    ensures TokenAt(startAfter, pages + [page], i) == TokenAt(startAfter, pages, i)
  {
  }

  function ContentsOf(pages: seq<Page>): seq<string> {
    if pages == [] then [] else ContentsOf(pages[..|pages| - 1]) + pages[|pages| - 1].contents
  }

  function CommonPrefixesOf(pages: seq<Page>): seq<string> {
    if pages == [] then [] else CommonPrefixesOf(pages[..|pages| - 1]) + pages[|pages| - 1].commonPrefixes
  }

  function Flat(shown: seq<seq<Item>>): seq<Item> {
    if shown == [] then [] else Flat(shown[..|shown| - 1]) + shown[|shown| - 1]
  }

  lemma PagesAppend(pages: seq<Page>, page: Page, shown: seq<seq<Item>>, items: seq<Item>)
    ensures ContentsOf(pages + [page]) == ContentsOf(pages) + page.contents
    ensures CommonPrefixesOf(pages + [page]) == CommonPrefixesOf(pages) + page.commonPrefixes
    ensures Flat(shown + [items]) == Flat(shown) + items
  {
    assert (pages + [page])[..|pages|] == pages && (shown + [items])[..|shown|] == shown;
  }

  /** Drops every string that repeats its left neighbour. */
  function Dedup(ps: seq<string>): seq<string> {
    if ps == [] then []
    else
      var n := |ps| - 1;
      if n > 0 && ps[n - 1] == ps[n] then Dedup(ps[..n]) else Dedup(ps[..n]) + [ps[n]]
  }

  lemma {:induction false} DedupLast(ps: seq<string>)
    requires ps != []
    ensures Dedup(ps) != [] && Dedup(ps)[|Dedup(ps)| - 1] == ps[|ps| - 1]
    decreases |ps|
  {
    var n := |ps| - 1;
    if n > 0 && ps[n - 1] == ps[n] {
      DedupLast(ps[..n]);
    }
  }

  lemma DedupSnoc(ps: seq<string>, p: string)
    ensures Dedup(ps + [p]) == if ps != [] && ps[|ps| - 1] == p then Dedup(ps) else Dedup(ps) + [p]
  {
    assert (ps + [p])[..|ps|] == ps;
  }

  lemma {:induction false} LastPrefix(items: seq<Item>)
    ensures items != [] && items[|items| - 1].Common? ==>
              PrefixesOf(items) != [] && PrefixesOf(items)[|PrefixesOf(items)| - 1] == items[|items| - 1].prefix
    ensures PrefixesOf(items) != [] ==>
              exists i :: 0 <= i < |items| && items[i] == Common(PrefixesOf(items)[|PrefixesOf(items)| - 1])
    decreases |items|
  {
    if items != [] {
      var n := |items| - 1;
      LastPrefix(items[..n]);
      if items[n].Common? {
        assert items[n] == Common(PrefixesOf(items)[|PrefixesOf(items)| - 1]);
      } else if PrefixesOf(items) != [] {
        assert PrefixesOf(items) == PrefixesOf(items[..n]);
        var i :| 0 <= i < n && items[..n][i] == Common(PrefixesOf(items[..n])[|PrefixesOf(items[..n])| - 1]);
        assert items[i] == items[..n][i];
      }
    }
  }

  /** Repetitions of common prefixes are all that collapsing drops. */
  lemma {:induction false} DedupOfCollapse(items: seq<Item>)
    ensures Dedup(PrefixesOf(Collapse(items))) == Dedup(PrefixesOf(items))
    decreases |items|
  {
    hide Dedup;
    if items != [] {
      var n := |items| - 1;
      var front, e := items[..n], items[n];
      DedupOfCollapse(front);
      LastPrefix(front);
      assert items == front + [e];
      Snoc(front, e);
      Snoc(Collapse(front), e);
      CollapseSnoc(front, e);
      hide Collapse, PrefixesOf;
      DedupOfBoth(PrefixesOf(front), PrefixesOf(Collapse(front)), if e.Common? then [e.prefix] else []);
    } else {
      assert Collapse([]) == [];
    }
  }

  /** Whether one more string repeats the last can be told from the list without repetitions. */
  lemma DedupOfBoth(p: seq<string>, q: seq<string>, one: seq<string>)
    requires Dedup(p) == Dedup(q) && |one| <= 1
    ensures Dedup(p + one) == Dedup(q + one)
    ensures one != [] && p != [] && p[|p| - 1] == one[0] ==> Dedup(p + one) == Dedup(q)
  {
    hide Dedup;
    if one == [] {
      assert p + one == p && q + one == q;
    } else {
      assert one == [one[0]];
      DedupSnoc(p, one[0]);
      DedupSnoc(q, one[0]);
      DedupNothing();
      if p != [] {
        DedupLast(p);
      }
      if q != [] {
        DedupLast(q);
      }
    }
  }

  lemma DedupNothing()
    ensures Dedup([]) == [] && forall ps :: Dedup(ps) == [] ==> ps == []
  {
    forall ps | Dedup(ps) == []
      ensures ps == []
    {
      if ps != [] {
        DedupLast(ps);
      }
    }
  }

  /** A list whose common prefixes differ has nothing to drop. */
  lemma {:induction false} DedupOfDistinct(items: seq<Item>)
    requires forall i, j :: 0 <= i < j < |items| && items[i].Common? && items[j].Common? ==> items[i] != items[j]
    ensures Dedup(PrefixesOf(items)) == PrefixesOf(items)
    decreases |items|
  {
    hide Dedup;
    if items == [] {
      DedupNothing();
    } else {
      var n := |items| - 1;
      var front, e := items[..n], items[n];
      assert items == front + [e];
      DedupOfDistinct(front);
      LastPrefix(front);
      Snoc(front, e);
      hide PrefixesOf;
      if e.Common? {
        DedupSnoc(PrefixesOf(front), e.prefix);
        if PrefixesOf(front) != [] {
          var p := PrefixesOf(front)[|PrefixesOf(front)| - 1];
          var i :| 0 <= i < n && front[i] == Common(p);
          assert items[i] == front[i];
        }
      } else {
        assert PrefixesOf(front) + [] == PrefixesOf(front);
      }
    }
  }

  lemma {:induction false} DedupMembers(ps: seq<string>, p: string)
    ensures p in Dedup(ps) <==> p in ps
    decreases |ps|
  {
    if ps != [] {
      DedupMembers(ps[..|ps| - 1], p);
      assert ps == ps[..|ps| - 1] + [ps[|ps| - 1]];
    }
  }

  /** Some row rolls up to p. */
  ghost predicate PrefixOfSome(prefix: string, delimiter: string, rows: seq<string>, p: string) {
    exists k :: k in rows && RollsUpTo(prefix, delimiter, k, p)
  }

  /** A roll-up has the common prefixes that some row rolls up to. */
  lemma RolledPrefixes(prefix: string, delimiter: string, rows: seq<string>, p: string)
    requires AllUnder(prefix, rows)
    ensures p in PrefixesOf(Rolled(prefix, delimiter, rows, {})) <==> PrefixOfSome(prefix, delimiter, rows, p)
  {
    hide Group, RollsUpTo, Covered, Rolled, PrefixesOf, KeysOf;
    ItemMembers(Rolled(prefix, delimiter, rows, {}));
    RolledMembers(prefix, delimiter, rows, {}, Common(p));
    forall k | k in rows
      ensures Group(prefix, delimiter, k) == Common(p) <==> RollsUpTo(prefix, delimiter, k, p)
    {
      GroupMeans(prefix, delimiter, k);
    }
  }

  lemma RolledHasDistinctPrefixes(prefix: string, delimiter: string, rows: seq<string>)
    requires Ascending(rows) && AllUnder(prefix, rows)
    ensures Dedup(PrefixesOf(Rolled(prefix, delimiter, rows, {}))) == PrefixesOf(Rolled(prefix, delimiter, rows, {}))
  {
    hide Ascending, AllUnder, Group, Dedup, PrefixesOf, Rolled;
    var items := Rolled(prefix, delimiter, rows, {});
    forall i, j | 0 <= i < j < |items| && items[i].Common? && items[j].Common?
      ensures items[i] != items[j]
    {
      CommonPrefixesAscend(prefix, delimiter, rows, {}, i, j);
    }
    DedupOfDistinct(items);
  }

  lemma {:induction false} PrefixesOfJoined(a: seq<Item>, b: seq<Item>)
    ensures PrefixesOf(a + b) == PrefixesOf(a) + PrefixesOf(b)
    decreases |b|
  {
    if b == [] {
      assert a + b == a;
    } else {
      var n := |b| - 1;
      PrefixesOfJoined(a, b[..n]);
      assert a + b == (a + b[..n]) + [b[n]] && b == b[..n] + [b[n]];
      Snoc(a + b[..n], b[n]);
      Snoc(b[..n], b[n]);
    }
  }

  /** The pages so far, and what they have shown. */
  ghost predicate Gathered(prefix: string, delimiter: string, rows: seq<string>, pages: seq<Page>,
                           shown: seq<seq<Item>>) {
    && Accumulated(prefix, delimiter, rows, Flat(shown))
    && ContentsOf(pages) == KeysOf(Flat(shown)) && CommonPrefixesOf(pages) == PrefixesOf(Flat(shown))
  }

  lemma GatherPage(prefix: string, delimiter: string, rows: seq<string>, rows': seq<string>, pages: seq<Page>,
                   shown: seq<seq<Item>>, page: Page, items: seq<Item>)
    requires Gathered(prefix, delimiter, rows, pages, shown)
    requires Accumulated(prefix, delimiter, rows', Flat(shown) + items)
    requires page.contents == KeysOf(items) && page.commonPrefixes == PrefixesOf(items)
    ensures Gathered(prefix, delimiter, rows', pages + [page], shown + [items])
  {
    hide Accumulated, KeysOf, PrefixesOf, ContentsOf, CommonPrefixesOf, Flat;
    PagesAppend(pages, page, shown, items);
    KeysOfJoined(Flat(shown), items);
    PrefixesOfJoined(Flat(shown), items);
  }

  /**
   * A client that follows continuation tokens over an unchanged bucket. It comes to an end, while it is calm
   * always with pages chained by their tokens up to the last. Their contents, put together, are the keys that
   * no common prefix covers, each exactly once and in order; their common prefixes, repetitions across pages
   * dropped, are those of the roll-up of all matching keys after the start; and so are both together.
   */
  method ListAll(keys: seq<string>, prefix: string, delimiter: string, startAfter: string, maxKeys: nat, calm: bool)
    returns (ok: bool, pages: seq<Page>, ghost shown: seq<seq<Item>>)
    requires Ascending(keys) && maxKeys > 0
    ensures calm ==> ok
    ensures ok ==> IsListing(keys, prefix, delimiter, startAfter, maxKeys, pages, shown)
    ensures ok ==> ContentsOf(pages) == PlainKeys(prefix, delimiter, Select(keys, prefix, startAfter))
    ensures ok ==> Dedup(CommonPrefixesOf(pages)) ==
                   PrefixesOf(Rolled(prefix, delimiter, Select(keys, prefix, startAfter), {}))
    ensures ok ==> forall p :: p in CommonPrefixesOf(pages) <==>
                     PrefixOfSome(prefix, delimiter, Select(keys, prefix, startAfter), p)
    ensures ok ==> ContentsOf(pages) == KeysOf(Flat(shown)) && CommonPrefixesOf(pages) == PrefixesOf(Flat(shown))
    ensures ok ==> Collapse(Flat(shown)) == Rolled(prefix, delimiter, Select(keys, prefix, startAfter), {})
  {
    hide *;
    pages, shown := [], [];
    var token, more := startAfter, true;
    ghost var rows, pos := Select(keys, prefix, startAfter), 0;
    assert rows[0..] == rows && rows[..0] == [];
    NothingGathered(keys, prefix, delimiter, startAfter, maxKeys);
    while more
      invariant pos <= |rows| && Gathered(prefix, delimiter, rows[..pos], pages, shown)
      invariant Chained(keys, prefix, delimiter, startAfter, maxKeys, pages, shown)
      invariant token == TokenAt(startAfter, pages, |pages|)
      invariant more ==> Select(keys, prefix, token) == rows[pos..]
      invariant pages != [] ==> pages[|pages| - 1].truncated == more
      invariant !more ==> pos == |rows| && pages != []
      decreases |rows| - pos, more
    {
      var got, page, items := ListPage(keys, prefix, delimiter, token, maxKeys, calm);
      if !got {
        return false, pages, shown;
      }
      GatheredIsAccumulated(prefix, delimiter, rows[..pos], pages, shown);
      TurnPage(keys, prefix, delimiter, startAfter, maxKeys, pos, token, Flat(shown), page, items);
      PageIs(prefix, delimiter, Select(keys, prefix, token), maxKeys, page, items);
      var n := PageEnd(prefix, delimiter, rows[pos..], {}, maxKeys);
      GatherPage(prefix, delimiter, rows[..pos], rows[..pos + n], pages, shown, page, items);
      ChainedAppend(keys, prefix, delimiter, startAfter, maxKeys, pages, shown, page, items);
      pages, shown := pages + [page], shown + [items];
      pos := pos + n;
      token, more := page.nextToken, page.truncated;
    }
    assert rows[..pos] == rows;
    ListingIs(keys, prefix, delimiter, startAfter, maxKeys, pages, shown);
    RowsUnderPrefix(keys, prefix, startAfter);
    AllGathered(prefix, delimiter, rows, pages, shown);
    return true, pages, shown;
  }

  lemma NothingGathered(keys: seq<string>, prefix: string, delimiter: string, startAfter: string, max: nat)
    ensures Gathered(prefix, delimiter, [], [], []) && Chained(keys, prefix, delimiter, startAfter, max, [], [])
    ensures TokenAt(startAfter, [], 0) == startAfter
  {
    AccumulatedNothing(prefix, delimiter);
  }

  lemma GatheredIsAccumulated(prefix: string, delimiter: string, rows: seq<string>, pages: seq<Page>,
                              shown: seq<seq<Item>>)
    requires Gathered(prefix, delimiter, rows, pages, shown)
    ensures Accumulated(prefix, delimiter, rows, Flat(shown))
    ensures ContentsOf(pages) == KeysOf(Flat(shown)) && CommonPrefixesOf(pages) == PrefixesOf(Flat(shown))
  {
  }

  lemma ListingIs(keys: seq<string>, prefix: string, delimiter: string, startAfter: string, max: nat,
                  pages: seq<Page>, shown: seq<seq<Item>>)
    requires Chained(keys, prefix, delimiter, startAfter, max, pages, shown)
    requires pages != [] && !pages[|pages| - 1].truncated
    ensures IsListing(keys, prefix, delimiter, startAfter, max, pages, shown)
  {
  }

  lemma AllGathered(prefix: string, delimiter: string, rows: seq<string>, pages: seq<Page>, shown: seq<seq<Item>>)
    requires Ascending(rows) && AllUnder(prefix, rows) && Gathered(prefix, delimiter, rows, pages, shown)
    ensures ContentsOf(pages) == KeysOf(Flat(shown)) && CommonPrefixesOf(pages) == PrefixesOf(Flat(shown))
    ensures ContentsOf(pages) == PlainKeys(prefix, delimiter, rows)
    ensures Collapse(Flat(shown)) == Rolled(prefix, delimiter, rows, {})
    ensures Dedup(CommonPrefixesOf(pages)) == PrefixesOf(Rolled(prefix, delimiter, rows, {}))
    ensures forall p :: p in CommonPrefixesOf(pages) <==> PrefixOfSome(prefix, delimiter, rows, p)
  {
    hide *;
    forall p
      ensures p in Dedup(CommonPrefixesOf(pages)) <==> p in CommonPrefixesOf(pages)
      ensures p in PrefixesOf(Rolled(prefix, delimiter, rows, {})) <==> PrefixOfSome(prefix, delimiter, rows, p)
    {
      DedupMembers(CommonPrefixesOf(pages), p);
      RolledPrefixes(prefix, delimiter, rows, p);
    }
    GatheredIsAccumulated(prefix, delimiter, rows, pages, shown);
    RolledIsCollapsed(prefix, delimiter, rows);
    PlainKeysAreGroupKeys(prefix, delimiter, rows);
    IsAccumulated(prefix, delimiter, rows, Flat(shown));
    DedupOfCollapse(Flat(shown));
    RolledHasDistinctPrefixes(prefix, delimiter, rows);
  }

  lemma AccumulatedNothing(prefix: string, delimiter: string)
    ensures Accumulated(prefix, delimiter, [], [])
  {
    assert Groups(prefix, delimiter, []) == [];
  }

  lemma IsAccumulated(prefix: string, delimiter: string, rows: seq<string>, items: seq<Item>)
    requires Accumulated(prefix, delimiter, rows, items)
    ensures Collapse(items) == Collapse(Groups(prefix, delimiter, rows))
    ensures KeysOf(items) == KeysOf(Groups(prefix, delimiter, rows))
  {
  }
}
