/** The query behind listings: the keys of one bucket in order, cut to a prefix, a start and a limit. */
module ObjectTable {
  import opened Environment
  import opened KeyOrder
  import opened Sorting
  import Meta = Metadata

  // --- SQLite's substr counts characters, the code passes it a length in bytes ---

  function Utf8Length(c: char): nat {
    if c as int < 0x80 then 1 else if c as int < 0x800 then 2 else if c as int < 0x1_0000 then 3 else 4
  }

  function ByteLength(s: string): nat {
    if s == [] then 0 else Utf8Length(s[0]) + ByteLength(s[1..])
  }

  predicate Ascii(s: string) {
    forall i :: 0 <= i < |s| ==> s[i] as int < 0x80
  }

  /** substr(key, 1, len(prefix)) = prefix */
  predicate Matches(key: string, prefix: string) {
    var n := ByteLength(prefix);
    (if n <= |key| then key[..n] else key) == prefix
  }

  lemma {:induction false} ByteLengthOfAscii(s: string)
    ensures ByteLength(s) >= |s|
    ensures ByteLength(s) == |s| <==> Ascii(s)
  {
    if s != [] {
      ByteLengthOfAscii(s[1..]);
      assert forall i :: 1 <= i < |s| ==> s[i] == s[1..][i - 1];
      assert Ascii(s) <==> Utf8Length(s[0]) == 1 && Ascii(s[1..]);
    }
  }

  /** What the condition really selects: the prefix, if it is ASCII, and otherwise only the key equal to it. */
  lemma MatchesExactly(key: string, prefix: string)
    ensures Matches(key, prefix) <==> if Ascii(prefix) then prefix <= key else key == prefix
  {
    ByteLengthOfAscii(prefix);
  }

  // --- the keys of a bucket, in order ---

  /** The keys of a bucket's objects, in any order. */
  ghost function Names(ids: set<Meta.ObjectId>, bucket: string): seq<string> {
    if ids == {} then []
    else
      var id :| id in ids;
      (if id.0 == bucket then [id.1] else []) + Names(ids - {id}, bucket)
  }

  ghost predicate NoRepeats(s: seq<string>) {
    forall i, j :: 0 <= i < j < |s| ==> s[i] != s[j]
  }

  /** A list of just the bucket's keys, without repetition. */
  ghost predicate Lists(names: seq<string>, ids: set<Meta.ObjectId>, bucket: string) {
    NoRepeats(names) && forall k :: k in names <==> (bucket, k) in ids
  }

  lemma ListsOneMore(names: seq<string>, ids: set<Meta.ObjectId>, bucket: string, id: Meta.ObjectId)
    requires Lists(names, ids, bucket) && id !in ids
    ensures
      var one := if id.0 == bucket then [id.1] else [];
      Lists(names + one, ids + {id}, bucket) && Lists(one + names, ids + {id}, bucket)
  {
    assert id == (id.0, id.1);
  }

  lemma {:induction false} NamesList(ids: set<Meta.ObjectId>, bucket: string)
    ensures Lists(Names(ids, bucket), ids, bucket)
  {
    if ids != {} {
      var id :| id in ids && Names(ids, bucket) == (if id.0 == bucket then [id.1] else []) + Names(ids - {id}, bucket);
      NamesList(ids - {id}, bucket);
      ListsOneMore(Names(ids - {id}, bucket), ids - {id}, bucket, id);
      assert ids - {id} + {id} == ids;
    }
  }

  lemma CountOf(s: seq<string>, i: nat, j: nat)
    requires i < j < |s| && s[i] == s[j]
    ensures multiset(s)[s[i]] > 1
  {
    assert s == s[..j] + [s[j]] + s[j + 1..];
    assert s[..j][i] == s[i] && s[i] in multiset(s[..j]);
  }

  lemma {:induction false} NoRepeatsCount(s: seq<string>, x: string)
    requires NoRepeats(s)
    ensures multiset(s)[x] <= 1
    decreases |s|
  {
    if s != [] {
      var n := |s| - 1;
      NoRepeatsCount(s[..n], x);
      assert s == s[..n] + [s[n]];
      if x == s[n] {
        assert x !in s[..n];
        assert x !in multiset(s[..n]);
      }
    }
  }

  /** Sorted without repetition is strictly ascending. */
  lemma SortedAscends(names: seq<string>)
    requires NoRepeats(names)
    ensures Ascending(SortStrings(names)) && forall k :: k in SortStrings(names) <==> k in names
  {
    hide SortStrings;
    var keys := SortStrings(names);
    SortStringsSorts(names);
    SameSize(keys, names);
    forall i, j | 0 <= i < j < |keys|
      ensures Less(keys[i], keys[j])
    {
      if keys[i] == keys[j] {
        CountOf(keys, i, j);
        NoRepeatsCount(names, keys[i]);
      }
      LessTotal(keys[i], keys[j]);
    }
    forall k
      ensures k in keys <==> k in names
    {
      assert k in keys <==> k in multiset(keys);
      assert k in names <==> k in multiset(names);
    }
  }

  /** The keys of a bucket's objects, in the order of the table. */
  ghost function KeysIn(ids: set<Meta.ObjectId>, bucket: string): (keys: seq<string>)
    ensures Ascending(keys) && forall k :: k in keys <==> (bucket, k) in ids
  {
    NamesList(ids, bucket);
    SortedAscends(Names(ids, bucket));
    SortStrings(Names(ids, bucket))
  }

  lemma FirstIsLeast(a: seq<string>, b: seq<string>)
    requires Ascending(a) && Ascending(b) && a != [] && b != [] && (forall k :: k in a <==> k in b)
    ensures a[0] == b[0]
  {
    assert a[0] in b && b[0] in a;
    var i :| 0 <= i < |b| && b[i] == a[0];
    var j :| 0 <= j < |a| && a[j] == b[0];
    if i > 0 && j > 0 {
      LessAsymmetric(a[0], b[0]);
    }
  }

  /** There is only one such list. */
  lemma {:induction false} AscendingUnique(a: seq<string>, b: seq<string>)
    requires Ascending(a) && Ascending(b) && forall k :: k in a <==> k in b
    ensures a == b
    decreases |a|
  {
    assert (a != [] ==> a[0] in a) && (b != [] ==> b[0] in b);
    if a != [] && b != [] {
      FirstIsLeast(a, b);
      AscendingTail(a, 1);
      AscendingTail(b, 1);
      forall k
        ensures k in a[1..] <==> k in b[1..]
      {
        NotAgain(a, k);
        NotAgain(b, k);
      }
      AscendingUnique(a[1..], b[1..]);
      assert a == [a[0]] + a[1..] && b == [b[0]] + b[1..];
    }
  }

  lemma NotAgain(a: seq<string>, k: string)
    requires Ascending(a) && a != []
    ensures k in a[1..] <==> k in a && k != a[0]
  {
    LessIrreflexive(a[0]);
    assert a == [a[0]] + a[1..];
    if k in a[1..] {
      var i :| 0 <= i < |a[1..]| && a[1..][i] == k;
      assert a[i + 1] == k;
    }
  }

  /** Reads a bucket's keys off the table, in order. */
  method TableKeys(objects: map<Meta.ObjectId, Meta.ObjectRow>, bucket: string) returns (keys: seq<string>)
    ensures keys == KeysIn(objects.Keys, bucket)
  {
    hide SortStrings;
    var names: seq<string>, todo := [], objects.Keys;
    while todo != {}
      invariant todo <= objects.Keys && Lists(names, objects.Keys - todo, bucket)
      decreases |todo|
    {
      var id :| id in todo;
      ListsOneMore(names, objects.Keys - todo, bucket, id);
      assert objects.Keys - todo + {id} == objects.Keys - (todo - {id});
      names := names + if id.0 == bucket then [id.1] else [];
      todo := todo - {id};
    }
    assert objects.Keys - todo == objects.Keys;
    SortedAscends(names);
    keys := SortStrings(names);
    AscendingUnique(keys, KeysIn(objects.Keys, bucket));
  }

  // --- the query ---

  /** WHERE key > after AND the prefix condition, ORDER BY key, on a bucket's keys in order. */
  function Select(keys: seq<string>, prefix: string, after: string): seq<string> {
    if keys == [] then []
    else
      (if Less(after, keys[0]) && Matches(keys[0], prefix) then [keys[0]] else []) +
      Select(keys[1..], prefix, after)
  }

  /** The keys a listing by prefix should see. */
  function Wanted(keys: seq<string>, prefix: string, after: string): seq<string> {
    if keys == [] then []
    else (if Less(after, keys[0]) && prefix <= keys[0] then [keys[0]] else []) + Wanted(keys[1..], prefix, after)
  }

  /** No key behind `after` properly extends the prefix. */
  ghost predicate NoneLonger(keys: seq<string>, prefix: string, after: string) {
    forall i :: 0 <= i < |keys| && Less(after, keys[i]) && prefix <= keys[i] ==> keys[i] == prefix
  }

  /** Listing by prefix is right exactly if the prefix is ASCII or no listed key properly extends it. */
  lemma {:induction false} SelectIsWantedIffAscii(keys: seq<string>, prefix: string, after: string)
    ensures |Select(keys, prefix, after)| <= |Wanted(keys, prefix, after)|
    ensures Select(keys, prefix, after) == Wanted(keys, prefix, after) <==>
            Ascii(prefix) || NoneLonger(keys, prefix, after)
  {
    if keys != [] {
      SelectIsWantedIffAscii(keys[1..], prefix, after);
      MatchesExactly(keys[0], prefix);
      assert forall i :: 1 <= i < |keys| ==> keys[i] == keys[1..][i - 1];
      assert NoneLonger(keys, prefix, after) <==>
             NoneLonger(keys[1..], prefix, after) && (Less(after, keys[0]) && prefix <= keys[0] ==> keys[0] == prefix);
      hide NoneLonger;
      hide Ascii;
      var s, w := Select(keys[1..], prefix, after), Wanted(keys[1..], prefix, after);
      var selected := Less(after, keys[0]) && Matches(keys[0], prefix);
      var wanted := Less(after, keys[0]) && prefix <= keys[0];
      assert Select(keys, prefix, after) == (if selected then [keys[0]] + s else s);
      assert Wanted(keys, prefix, after) == (if wanted then [keys[0]] + w else w);
      if selected {
        assert ([keys[0]] + s)[1..] == s && ([keys[0]] + w)[1..] == w;
      } else if wanted {
        assert |Select(keys, prefix, after)| < |Wanted(keys, prefix, after)|;
      }
    }
  }

  lemma {:induction false} SelectAbove(keys: seq<string>, prefix: string, after: string, after': string)
    requires forall i :: 0 <= i < |keys| ==> Less(after, keys[i]) && Less(after', keys[i])
    ensures Select(keys, prefix, after) == Select(keys, prefix, after')
  {
    if keys != [] {
      assert forall i :: 0 <= i < |keys[1..]| ==> keys[1..][i] == keys[i + 1];
      SelectAbove(keys[1..], prefix, after, after');
    }
  }

  lemma {:induction false} SelectedAreKeys(keys: seq<string>, prefix: string, after: string, i: nat)
    requires i < |Select(keys, prefix, after)|
    ensures
      var k := Select(keys, prefix, after)[i];
      k in keys && Less(after, k) && Matches(k, prefix) && prefix <= k
  {
    if Less(after, keys[0]) && Matches(keys[0], prefix) {
      if i == 0 {
        MatchesExactly(keys[0], prefix);
      } else {
        SelectedAreKeys(keys[1..], prefix, after, i - 1);
      }
    } else {
      SelectedAreKeys(keys[1..], prefix, after, i);
    }
  }

  lemma {:induction false} SelectMembers(keys: seq<string>, prefix: string, after: string, k: string)
    ensures k in Select(keys, prefix, after) <==> k in keys && Less(after, k) && Matches(k, prefix)
  {
    if keys != [] {
      SelectMembers(keys[1..], prefix, after, k);
      assert keys == [keys[0]] + keys[1..];
    }
  }

  lemma {:induction false} SelectAscending(keys: seq<string>, prefix: string, after: string)
    requires Ascending(keys)
    ensures Ascending(Select(keys, prefix, after))
  {
    if keys != [] {
      AscendingTail(keys, 1);
      SelectAscending(keys[1..], prefix, after);
      var rest := Select(keys[1..], prefix, after);
      forall i | 0 <= i < |rest|
        ensures Less(keys[0], rest[i])
      {
        SelectedAreKeys(keys[1..], prefix, after, i);
        var j :| 0 <= j < |keys[1..]| && keys[1..][j] == rest[i];
        assert keys[j + 1] == rest[i];
      }
    }
  }

  /** Asking again from a selected key on gives exactly the rows behind it. */
  lemma {:induction false} SelectFromRow(keys: seq<string>, prefix: string, after: string, i: nat)
    requires Ascending(keys) && i < |Select(keys, prefix, after)|
    ensures Select(keys, prefix, Select(keys, prefix, after)[i]) == Select(keys, prefix, after)[i + 1..]
  {
    var rows := Select(keys, prefix, after);
    var first, rest := keys[0], keys[1..];
    AscendingTail(keys, 1);
    LessIrreflexive(first);
    if Less(after, first) && Matches(first, prefix) {
      assert rows == [first] + Select(rest, prefix, after);
      if i == 0 {
        forall j | 0 <= j < |rest|
          ensures Less(after, rest[j]) && Less(first, rest[j])
        {
          assert rest[j] == keys[j + 1];
          LessTransitive(after, first, rest[j]);
        }
        SelectAbove(rest, prefix, after, first);
        assert rows[1..] == Select(rest, prefix, after);
      } else {
        BehindFirst(keys, prefix, after, i - 1);
        SelectFromRow(rest, prefix, after, i - 1);
        assert rows[i + 1..] == Select(rest, prefix, after)[i..];
      }
    } else {
      assert rows == Select(rest, prefix, after);
      BehindFirst(keys, prefix, after, i);
      SelectFromRow(rest, prefix, after, i);
    }
  }

  lemma BehindFirst(keys: seq<string>, prefix: string, after: string, i: nat)
    requires Ascending(keys) && keys != [] && i < |Select(keys[1..], prefix, after)|
    ensures !Less(Select(keys[1..], prefix, after)[i], keys[0])
  {
    SelectedAreKeys(keys[1..], prefix, after, i);
    var k := Select(keys[1..], prefix, after)[i];
    var j :| 0 <= j < |keys[1..]| && keys[1..][j] == k;
    assert keys[j + 1] == k;
    LessAsymmetric(keys[0], k);
  }

  /** Store.ListObjects: one row more than asked for is fetched to see whether there is more. */
  method ListObjects(keys: seq<string>, prefix: string, startAfter: string, limit: int, calm: bool)
    returns (ok: bool, rows: seq<string>, more: bool)
    ensures calm ==> ok
    ensures
      ok ==>
        var all := Select(keys, prefix, startAfter);
        var n := if limit <= 0 then 1000 else limit;
        rows == (if |all| <= n then all else all[..n]) && more == (|all| > n)
  {
    var fails := Fails(calm);
    if fails {
      return false, [], false;
    }
    var n := if limit <= 0 then 1000 else limit;
    var objs := Select(keys, prefix, startAfter);
    if |objs| > n + 1 {
      objs := objs[..n + 1];
    }
    if |objs| > n {
      return true, objs[..n], true;
    }
    return true, objs, false;
  }
}
