/**
 * Multipart uploads as values: what the part rows, the staged files and the parts a client names amount
 * to, and what each step does to that.
 */
module Uploads {
  import opened Bytes
  import Meta = Metadata

  type PartId = Meta.PartId

  /** The staged files, by upload and part number. */
  type Staging = map<string, map<nat, Bytes>>

  /** What a client names when it completes an upload; tag is the ETag's MD5, None if it is no MD5 at all. */
  datatype NamedPart = NamedPart(number: nat, tag: Option<Bytes>)

  predicate Ascending(parts: seq<NamedPart>) {
    forall i :: 0 < i < |parts| ==> parts[i - 1].number < parts[i].number
  }

  /** Every number is smaller than all later ones. */
  lemma {:induction false} AscendingMeans(parts: seq<NamedPart>)
    ensures Ascending(parts) <==> forall i, j :: 0 <= i < j < |parts| ==> parts[i].number < parts[j].number
    decreases |parts|
  {
    if parts != [] {
      var n := |parts| - 1;
      AscendingMeans(parts[..n]);
      if Ascending(parts) {
        assert Ascending(parts[..n]);
        forall i, j | 0 <= i < j < |parts|
          ensures parts[i].number < parts[j].number
        {
          assert n > 0 && parts[n - 1].number < parts[n].number;
          assert parts[..n][i] == parts[i] || i == n;
          if j < n {
            assert parts[..n][j] == parts[j];
          } else if i < n - 1 {
            assert parts[..n][i].number < parts[..n][n - 1].number;
          }
        }
      }
    }
  }

  function Concat(pieces: seq<Bytes>): Bytes {
    if pieces == [] then [] else Concat(pieces[..|pieces| - 1]) + pieces[|pieces| - 1]
  }

  lemma ConcatAppend(pieces: seq<Bytes>, last: Bytes)
    ensures Concat(pieces + [last]) == Concat(pieces) + last
  {
    assert (pieces + [last])[..|pieces|] == pieces;
  }

  // --- the invariant ---

  // acked holds the bytes of every part's last acknowledged upload. A part is torn when it has since been
  // replaced on disk by an upload that failed behind the rename; torn holds the replacing bytes.

  function OnDisk(acked: map<PartId, Bytes>, torn: map<PartId, Bytes>, p: PartId): Bytes {
    if p in torn then torn[p] else if p in acked then acked[p] else []
  }

  /** A part row describes the last acknowledged upload; a staged file holds what is on disk for its part. */
  ghost predicate PartsOk(
    parts: map<PartId, Meta.PartRow>, acked: map<PartId, Bytes>, torn: map<PartId, Bytes>,
    staging: Staging, md5: Bytes -> Bytes)
  {
    forall p :: p in parts ==>
      && p in acked && parts[p] == Meta.PartRow(|acked[p]|, md5(acked[p]))
      && (p.0 in staging && p.1 in staging[p.0] ==> staging[p.0][p.1] == OnDisk(acked, torn, p))
  }

  /**
   * An upload is open from its creation until somebody tries to create it again, aborts it, or completes
   * it. An open upload has its row, its directory, and a row and a file for every acknowledged part.
   */
  ghost predicate OpenOk(
    open: map<string, Meta.ObjectId>, used: set<string>, uploads: map<string, Meta.UploadRow>,
    parts: map<PartId, Meta.PartRow>, acked: map<PartId, Bytes>, staging: Staging)
  {
    && uploads.Keys <= used
    && (forall p :: p in parts ==> p.0 in uploads)
    && (forall u :: u in open ==>
          && u in uploads && uploads[u] == Meta.UploadRow(open[u].0, open[u].1) && u in staging
          && forall n :: (u, n) in acked ==> (u, n) in parts && n in staging[u])
  }

  // --- what a client names ---

  /** The last acknowledged bytes of the named parts of an upload. */
  function AckedPieces(acked: map<PartId, Bytes>, uploadId: string, named: seq<NamedPart>): seq<Bytes> {
    seq(|named|, i requires 0 <= i < |named| => OnDisk(acked, map[], (uploadId, named[i].number)))
  }

  /** What is on disk for them. */
  function DiskPieces(acked: map<PartId, Bytes>, torn: map<PartId, Bytes>, uploadId: string,
                      named: seq<NamedPart>): seq<Bytes> {
    seq(|named|, i requires 0 <= i < |named| => OnDisk(acked, torn, (uploadId, named[i].number)))
  }

  function Digests(md5: Bytes -> Bytes, pieces: seq<Bytes>): seq<Bytes> {
    seq(|pieces|, i requires 0 <= i < |pieces| => md5(pieces[i]))
  }

  /** Every named part was acknowledged, and the client named the ETag of the bytes last acknowledged for it. */
  predicate NamedOk(acked: map<PartId, Bytes>, md5: Bytes -> Bytes, uploadId: string, named: seq<NamedPart>) {
    forall i :: 0 <= i < |named| ==>
      (uploadId, named[i].number) in acked && named[i].tag == Some(md5(acked[(uploadId, named[i].number)]))
  }

  /** The size and the ETag of an upload completed with these parts. */
  function TotalSize(acked: map<PartId, Bytes>, uploadId: string, named: seq<NamedPart>): nat {
    |Concat(AckedPieces(acked, uploadId, named))|
  }

  function CombinedTag(acked: map<PartId, Bytes>, md5: Bytes -> Bytes, uploadId: string,
                       named: seq<NamedPart>): Meta.ETag {
    Meta.Combined(md5(Concat(Digests(md5, AckedPieces(acked, uploadId, named)))), |named|)
  }

  /**
   * What an upload completed with these parts stores: what is on disk for them, in the named order, cut to
   * the total of the acknowledged sizes.
   */
  function Assembled(acked: map<PartId, Bytes>, torn: map<PartId, Bytes>, uploadId: string,
                     named: seq<NamedPart>): Bytes {
    var disk := Concat(DiskPieces(acked, torn, uploadId, named));
    disk[..Min(TotalSize(acked, uploadId, named), |disk|)]
  }

  /** None of the named parts is torn. */
  ghost predicate Intact(torn: map<PartId, Bytes>, uploadId: string, named: seq<NamedPart>) {
    forall i :: 0 <= i < |named| ==> (uploadId, named[i].number) !in torn
  }

  /** Intact parts are assembled as they were acknowledged. */
  lemma IntactIsAcknowledged(acked: map<PartId, Bytes>, torn: map<PartId, Bytes>, uploadId: string,
                             named: seq<NamedPart>)
    requires Intact(torn, uploadId, named)
    ensures DiskPieces(acked, torn, uploadId, named) == AckedPieces(acked, uploadId, named)
    ensures Assembled(acked, torn, uploadId, named) == Concat(AckedPieces(acked, uploadId, named))
  {
    var d, a := DiskPieces(acked, torn, uploadId, named), AckedPieces(acked, uploadId, named);
    forall i | 0 <= i < |named|
      ensures d[i] == a[i]
    {
    }
    assert d == a;
  }

  /**
   * What torn parts do: what is stored is what was acknowledged exactly if that is a prefix of what is on
   * disk, all parts put together.
   */
  lemma TornPartsAreServed(acked: map<PartId, Bytes>, torn: map<PartId, Bytes>, uploadId: string,
                           named: seq<NamedPart>)
    ensures Assembled(acked, torn, uploadId, named) == Concat(AckedPieces(acked, uploadId, named)) <==>
            Concat(AckedPieces(acked, uploadId, named)) <= Concat(DiskPieces(acked, torn, uploadId, named))
  {
    hide Concat, AckedPieces, DiskPieces;
    var a, d := Concat(AckedPieces(acked, uploadId, named)), Concat(DiskPieces(acked, torn, uploadId, named));
    if a <= d {
      assert d[..|a|] == a;
    }
  }

  lemma {:induction false} ConcatCancels(a: seq<Bytes>, b: seq<Bytes>)
    requires |a| == |b| && forall i :: 0 <= i < |a| ==> |a[i]| == |b[i]|
    ensures |Concat(a)| == |Concat(b)| && (Concat(a) == Concat(b) <==> a == b)
    decreases |a|
  {
    if a != [] {
      var n := |a| - 1;
      var front, front' := a[..n], b[..n];
      ConcatCancels(front, front');
      assert a == front + [a[n]] && b == front' + [b[n]];
      var x, y := Concat(front), Concat(front');
      assert Concat(a) == x + a[n] && Concat(b) == y + b[n];
      assert (x + a[n])[..|x|] == x && (x + a[n])[|x|..] == a[n];
      assert (y + b[n])[..|y|] == y && (y + b[n])[|y|..] == b[n];
    }
  }

  /**
   * When every failed upload sent as many bytes as the acknowledged one, nothing shifts: what is stored is
   * what was acknowledged exactly if every single part on disk is.
   */
  lemma EqualSizesTearPartByPart(acked: map<PartId, Bytes>, torn: map<PartId, Bytes>, uploadId: string,
                                 named: seq<NamedPart>)
    requires forall i :: 0 <= i < |named| ==>
               |AckedPieces(acked, uploadId, named)[i]| == |DiskPieces(acked, torn, uploadId, named)[i]|
    ensures Assembled(acked, torn, uploadId, named) == Concat(AckedPieces(acked, uploadId, named)) <==>
            AckedPieces(acked, uploadId, named) == DiskPieces(acked, torn, uploadId, named)
  {
    var a, d := AckedPieces(acked, uploadId, named), DiskPieces(acked, torn, uploadId, named);
    ConcatCancels(a, d);
    assert Concat(d)[..|Concat(d)|] == Concat(d);
  }

  /** An instance: of the parts 1 2 and 3 4, the first replaced on disk by 7 8 9, an object 7 8 9 3 is made. */
  lemma TornPartShiftsTheNext(uploadId: string, md5: Bytes -> Bytes)
    ensures
      var acked := map[(uploadId, 1) := [1, 2], (uploadId, 2) := [3, 4]];
      var torn := map[(uploadId, 1) := [7, 8, 9]];
      var named := [NamedPart(1, Some(md5([1, 2]))), NamedPart(2, Some(md5([3, 4])))];
      && Ascending(named) && NamedOk(acked, md5, uploadId, named)
      && Assembled(acked, torn, uploadId, named) == [7, 8, 9, 3]
      && Concat(AckedPieces(acked, uploadId, named)) == [1, 2, 3, 4]
  {
    var acked: map<PartId, Bytes> := map[(uploadId, 1) := [1, 2], (uploadId, 2) := [3, 4]];
    var torn: map<PartId, Bytes> := map[(uploadId, 1) := [7, 8, 9]];
    var named := [NamedPart(1, Some(md5([1, 2]))), NamedPart(2, Some(md5([3, 4])))];
    var a, b: Bytes := [1, 2], [3, 4];
    assert AckedPieces(acked, uploadId, named) == [a, b];
    ConcatTwo(a, b);
    var c: Bytes := [7, 8, 9];
    assert DiskPieces(acked, torn, uploadId, named) == [c, b];
    ConcatTwo(c, b);
    assert a + b == [1, 2, 3, 4] && c + b == [7, 8, 9, 3, 4];
  }

  /** The ETag of an upload of two parts: the MD5 of both parts' MD5s, in the order named, and their number. */
  lemma CombinedOfTwo(acked: map<PartId, Bytes>, md5: Bytes -> Bytes, uploadId: string, p: NamedPart, q: NamedPart)
    requires (uploadId, p.number) in acked && (uploadId, q.number) in acked
    ensures
      var a, b := acked[(uploadId, p.number)], acked[(uploadId, q.number)];
      && CombinedTag(acked, md5, uploadId, [p, q]) == Meta.Combined(md5(md5(a) + md5(b)), 2)
      && Concat(AckedPieces(acked, uploadId, [p, q])) == a + b
  {
    var a, b := acked[(uploadId, p.number)], acked[(uploadId, q.number)];
    assert AckedPieces(acked, uploadId, [p, q]) == [a, b];
    assert Digests(md5, [a, b]) == [md5(a), md5(b)];
    ConcatTwo(md5(a), md5(b));
    ConcatTwo(a, b);
  }

  lemma ConcatTwo(a: Bytes, b: Bytes)
    ensures Concat([a, b]) == a + b
  {
    assert [a, b] == [a] + [b] && [a] == [] + [a];
    ConcatAppend([a], b);
    ConcatAppend([], a);
  }

  // --- what CompleteMultipart collects ---

  /** A listing of an upload's part rows. */
  ghost predicate RowsOf(have: map<nat, Meta.PartRow>, parts: map<PartId, Meta.PartRow>, uploadId: string) {
    forall n :: (n in have <==> (uploadId, n) in parts) && (n in have ==> have[n] == parts[(uploadId, n)])
  }

  /** Every named part has a row with the ETag named. */
  ghost predicate NamedRows(parts: map<PartId, Meta.PartRow>, uploadId: string, named: seq<NamedPart>) {
    forall i :: 0 <= i < |named| ==> NamedRow(parts, uploadId, named[i])
  }

  ghost predicate NamedRow(parts: map<PartId, Meta.PartRow>, uploadId: string, part: NamedPart) {
    (uploadId, part.number) in parts && part.tag == Some(parts[(uploadId, part.number)].md5)
  }

  /** Every part with a row has its file. */
  ghost predicate AllStaged(parts: map<PartId, Meta.PartRow>, staging: Staging, uploadId: string) {
    forall n :: (uploadId, n) in parts ==> uploadId in staging && n in staging[uploadId]
  }

  /** What the loop over the named parts needs to know about one of them. */
  lemma OnePart(have: map<nat, Meta.PartRow>, parts: map<PartId, Meta.PartRow>, staging: Staging, uploadId: string,
                named: seq<NamedPart>, i: nat)
    requires RowsOf(have, parts, uploadId) && i < |named|
    ensures
      var n := named[i].number;
      && (n in have ==> (uploadId, n) in parts && have[n] == parts[(uploadId, n)])
      && (NamedRow(parts, uploadId, named[i]) <==> n in have && named[i].tag == Some(have[n].md5))
      && (NamedRows(parts, uploadId, named) ==> NamedRow(parts, uploadId, named[i]))
      && (n in have && AllStaged(parts, staging, uploadId) ==> uploadId in staging && n in staging[uploadId])
  {
  }

  lemma OpenIsStaged(
    open: map<string, Meta.ObjectId>, used: set<string>, uploads: map<string, Meta.UploadRow>,
    parts: map<PartId, Meta.PartRow>, acked: map<PartId, Bytes>, torn: map<PartId, Bytes>, staging: Staging,
    md5: Bytes -> Bytes, u: string, named: seq<NamedPart>)
    requires OpenOk(open, used, uploads, parts, acked, staging) && PartsOk(parts, acked, torn, staging, md5)
    requires u in open
    ensures u in uploads && uploads[u] == Meta.UploadRow(open[u].0, open[u].1) && u in staging
    ensures AllStaged(parts, staging, u)
    ensures NamedRows(parts, u, named) <==> NamedOk(acked, md5, u, named)
  {
    if NamedOk(acked, md5, u, named) {
      forall i | 0 <= i < |named|
        ensures NamedRow(parts, u, named[i])
      {
      }
    } else if NamedRows(parts, u, named) {
      forall i | 0 <= i < |named|
        ensures (u, named[i].number) in acked && named[i].tag == Some(md5(acked[(u, named[i].number)]))
      {
        assert NamedRow(parts, u, named[i]);
      }
    }
  }

  /** What CompleteMultipart has collected once it has gone through the given parts. */
  ghost predicate Collected(
    parts: map<PartId, Meta.PartRow>, acked: map<PartId, Bytes>, torn: map<PartId, Bytes>, md5: Bytes -> Bytes,
    uploadId: string, named: seq<NamedPart>, files: seq<Bytes>, totalSize: nat, digests: Bytes)
  {
    && NamedRows(parts, uploadId, named) && NamedOk(acked, md5, uploadId, named)
    && files == DiskPieces(acked, torn, uploadId, named)
    && totalSize == TotalSize(acked, uploadId, named)
    && digests == Concat(Digests(md5, AckedPieces(acked, uploadId, named)))
  }

  lemma CollectedNothing(
    parts: map<PartId, Meta.PartRow>, acked: map<PartId, Bytes>, torn: map<PartId, Bytes>, md5: Bytes -> Bytes,
    uploadId: string)
    ensures Collected(parts, acked, torn, md5, uploadId, [], [], 0, [])
  {
    assert Concat([]) == [];
  }

  lemma CollectedStep(
    parts: map<PartId, Meta.PartRow>, acked: map<PartId, Bytes>, torn: map<PartId, Bytes>, staging: Staging,
    md5: Bytes -> Bytes, uploadId: string, named: seq<NamedPart>, files: seq<Bytes>, totalSize: nat, digests: Bytes,
    next: NamedPart)
    requires PartsOk(parts, acked, torn, staging, md5)
    requires Collected(parts, acked, torn, md5, uploadId, named, files, totalSize, digests)
    requires NamedRow(parts, uploadId, next) && uploadId in staging && next.number in staging[uploadId]
    ensures
      var row := parts[(uploadId, next.number)];
      Collected(parts, acked, torn, md5, uploadId, named + [next],
                files + [staging[uploadId][next.number]], totalSize + row.size, digests + row.md5)
  {
    var p := (uploadId, next.number);
    var named', pieces, piece := named + [next], AckedPieces(acked, uploadId, named), acked[p];
    assert parts[p] == Meta.PartRow(|piece|, md5(piece));
    assert AckedPieces(acked, uploadId, named') == pieces + [piece];
    assert DiskPieces(acked, torn, uploadId, named') == files + [staging[uploadId][next.number]];
    assert Digests(md5, pieces + [piece]) == Digests(md5, pieces) + [md5(piece)];
    ConcatAppend(pieces, piece);
    ConcatAppend(Digests(md5, pieces), md5(piece));
    forall i | 0 <= i < |named'|
      ensures NamedRow(parts, uploadId, named'[i])
      ensures (uploadId, named'[i].number) in acked
      ensures named'[i].tag == Some(md5(acked[(uploadId, named'[i].number)]))
    {
      if i < |named| {
        assert NamedRow(parts, uploadId, named[i]);
      }
    }
  }

  // --- what single steps do ---

  function Stage(staging: Staging, uploadId: string, n: nat, data: Bytes): Staging {
    var files: map<nat, Bytes> := if uploadId in staging then staging[uploadId] else map[];
    staging[uploadId := files[n := data]]
  }

  lemma StagedAgain(before: Staging, uploadId: string, n: nat, data: Bytes)
    ensures var s := Stage(before, uploadId, n, data); Stage(s, uploadId, n, data) == s
  {
    var s := Stage(before, uploadId, n, data);
    assert s[uploadId][n := data] == s[uploadId];
    assert s[uploadId := s[uploadId]] == s;
  }

  /** Nothing is staged now that was not staged, with the same bytes, before. */
  ghost predicate StagedWithin(now: Staging, before: Staging) {
    forall u, n :: u in now && n in now[u] ==> u in before && n in before[u] && now[u][n] == before[u][n]
  }

  /** The other uploads' files are the same. */
  ghost predicate OthersStaged(uploadId: string, before: Staging, now: Staging) {
    forall u :: u != uploadId ==> (u in before <==> u in now) && (u in before ==> now[u] == before[u])
  }

  lemma EmptyStaged(uploadId: string, staging: Staging)
    requires uploadId !in staging
    ensures StagedWithin(staging[uploadId := map[]], staging)
    ensures OthersStaged(uploadId, staging, staging[uploadId := map[]])
  {
  }

  lemma StagedTransitive(uploadId: string, before: Staging, made: Staging, now: Staging)
    requires StagedWithin(made, before) && OthersStaged(uploadId, before, made)
    requires StagedWithin(now, made) && OthersStaged(uploadId, made, now)
    ensures StagedWithin(now, before) && OthersStaged(uploadId, before, now)
  {
  }

  lemma NothingMoved(staging: Staging)
    ensures StagedWithin(staging, staging) && forall u :: OthersStaged(u, staging, staging)
  {
  }

  /** All entries but those of one upload. */
  function Without<V>(m: map<PartId, V>, uploadId: string): map<PartId, V> {
    map p | p in m && p.0 != uploadId :: m[p]
  }

  /** Removing part rows, files, or what is remembered of parts without rows keeps the rest as described. */
  lemma PartsWithin(
    parts: map<PartId, Meta.PartRow>, parts': map<PartId, Meta.PartRow>, acked: map<PartId, Bytes>,
    torn: map<PartId, Bytes>, staging: Staging, staging': Staging, md5: Bytes -> Bytes)
    requires PartsOk(parts, acked, torn, staging, md5) && StagedWithin(staging', staging)
    requires forall p :: p in parts' ==> p in parts && parts'[p] == parts[p]
    ensures PartsOk(parts', acked, torn, staging', md5)
  {
  }

  lemma PartsForgotten(
    parts: map<PartId, Meta.PartRow>, acked: map<PartId, Bytes>, torn: map<PartId, Bytes>, staging: Staging,
    md5: Bytes -> Bytes, uploadId: string)
    requires PartsOk(parts, acked, torn, staging, md5) && forall p :: p in parts ==> p.0 != uploadId
    ensures PartsOk(parts, Without(acked, uploadId), Without(torn, uploadId), staging, md5)
  {
  }

  lemma PartsAfterUpload(
    parts: map<PartId, Meta.PartRow>, acked: map<PartId, Bytes>, torn: map<PartId, Bytes>, staging: Staging,
    md5: Bytes -> Bytes, p: PartId, data: Bytes)
    requires PartsOk(parts, acked, torn, staging, md5)
    ensures PartsOk(parts, acked, torn[p := data], Stage(staging, p.0, p.1, data), md5)
    ensures PartsOk(parts[p := Meta.PartRow(|data|, md5(data))], acked[p := data], torn - {p},
                    Stage(staging, p.0, p.1, data), md5)
  {
  }

  lemma OpenAfterUpload(
    open: map<string, Meta.ObjectId>, used: set<string>, uploads: map<string, Meta.UploadRow>,
    parts: map<PartId, Meta.PartRow>, acked: map<PartId, Bytes>, staging: Staging, p: PartId, row: Meta.PartRow,
    data: Bytes)
    requires OpenOk(open, used, uploads, parts, acked, staging) && p.0 in uploads
    ensures OpenOk(open, used, uploads, parts, acked, Stage(staging, p.0, p.1, data))
    ensures OpenOk(open, used, uploads, parts[p := row], acked[p := data], Stage(staging, p.0, p.1, data))
  {
  }

  lemma OpenAfterDirectory(
    open: map<string, Meta.ObjectId>, used: set<string>, uploads: map<string, Meta.UploadRow>,
    parts: map<PartId, Meta.PartRow>, acked: map<PartId, Bytes>, staging: Staging, uploadId: string)
    requires OpenOk(open, used, uploads, parts, acked, staging) && uploadId !in staging
    ensures OpenOk(open, used, uploads, parts, acked, staging[uploadId := map[]])
  {
  }

  lemma OpenAfterCreation(
    open: map<string, Meta.ObjectId>, used: set<string>, uploads: map<string, Meta.UploadRow>,
    parts: map<PartId, Meta.PartRow>, acked: map<PartId, Bytes>, staging: Staging, staging': Staging,
    uploadId: string, id: Meta.ObjectId)
    requires OpenOk(open, used, uploads, parts, acked, staging) && OthersStaged(uploadId, staging, staging')
    requires uploadId !in uploads && uploadId in staging'
    ensures forall p :: p in parts ==> p.0 != uploadId
    ensures OpenOk(open[uploadId := id], used + {uploadId}, uploads[uploadId := Meta.UploadRow(id.0, id.1)], parts,
                   Without(acked, uploadId), staging')
  {
  }

  lemma OpenAfterClosing(
    open: map<string, Meta.ObjectId>, used: set<string>, uploads: map<string, Meta.UploadRow>,
    parts: map<PartId, Meta.PartRow>, acked: map<PartId, Bytes>, staging: Staging, staging': Staging,
    uploadId: string)
    requires OpenOk(open, used, uploads, parts, acked, staging) && OthersStaged(uploadId, staging, staging')
    ensures OpenOk(open - {uploadId}, used, uploads, parts, acked, staging')
    ensures OpenOk(open - {uploadId}, used, uploads - {uploadId}, Without(parts, uploadId), acked, staging')
  {
  }
}
