/** The metadata database: its four tables and the statements and transactions on them. */
module Metadata {
  import opened Bytes
  import opened Environment

  type ObjectId = (string, string)

  /** An ETag: the MD5 of a plain upload, or the MD5 over the parts' MD5s and their number. */
  datatype ETag = Single(md5: Bytes) | Combined(md5: Bytes, parts: nat)

  datatype ObjectRow = ObjectRow(
    size: nat, ciphertextSize: int, etag: ETag, contentType: string, messageId: int, nonce: Bytes)

  datatype UploadRow = UploadRow(bucket: string, key: string)

  datatype PartRow = PartRow(size: nat, md5: Bytes)

  type PartId = (string, nat)

  datatype MetaErr = MetaOk | NotFound | BucketNotEmpty | BucketExists | UploadNotFound | DbFailed

  /** Unless it is calm, any statement or transaction may fail; then it has changed nothing. */
  class Store {
    var buckets: set<string>
    var objects: map<ObjectId, ObjectRow>
    var uploads: map<string, UploadRow>
    var parts: map<PartId, PartRow>

    constructor ()
      ensures buckets == {} && objects == map[] && uploads == map[] && parts == map[]
    {
      buckets, objects, uploads, parts := {}, map[], map[], map[];
    }

    method CreateBucket(name: string, calm: bool) returns (err: MetaErr)
      modifies this`buckets
      ensures calm ==> err != DbFailed
      ensures err == MetaOk || err == BucketExists || err == DbFailed
      ensures err == BucketExists ==> name in old(buckets)
      ensures err == MetaOk ==> name !in old(buckets)
      ensures buckets == if err == MetaOk then old(buckets) + {name} else old(buckets)
    {
      var fails := Fails(calm);
      if fails {
        return DbFailed;
      }
      if name in buckets {
        return BucketExists;
      }
      buckets := buckets + {name};
      return MetaOk;
    }

    method GetBucket(name: string, calm: bool) returns (err: MetaErr)
      ensures calm ==> err != DbFailed
      ensures err == MetaOk ==> name in buckets
      ensures err == NotFound ==> name !in buckets
      ensures err == MetaOk || err == NotFound || err == DbFailed
    {
      var fails := Fails(calm);
      if fails {
        return DbFailed;
      }
      err := if name in buckets then MetaOk else NotFound;
    }

    method DeleteBucket(name: string, calm: bool) returns (err: MetaErr)
      modifies this`buckets
      ensures calm ==> err != DbFailed
      ensures err == MetaOk || err == BucketNotEmpty || err == NotFound || err == DbFailed
      ensures err == MetaOk ==> name in old(buckets) && forall id :: id in objects ==> id.0 != name
      ensures err == BucketNotEmpty ==> exists id :: id in objects && id.0 == name
      ensures err == NotFound ==> name !in old(buckets) && forall id :: id in objects ==> id.0 != name
      ensures buckets == if err == MetaOk then old(buckets) - {name} else old(buckets)
    {
      var fails := Fails(calm);
      if fails {
        return DbFailed;
      }
      if exists id :: id in objects && id.0 == name {
        return BucketNotEmpty;
      }
      if name !in buckets {
        return NotFound;
      }
      buckets := buckets - {name};
      return MetaOk;
    }

    method PutObject(id: ObjectId, row: ObjectRow, calm: bool) returns (err: MetaErr)
      modifies this`objects
      ensures calm ==> err != DbFailed
      ensures err == MetaOk || err == DbFailed
      ensures objects == if err == MetaOk then old(objects)[id := row] else old(objects)
    {
      var fails := Fails(calm);
      if fails {
        return DbFailed;
      }
      objects := objects[id := row];
      return MetaOk;
    }

    method GetObject(id: ObjectId, calm: bool) returns (err: MetaErr, row: Option<ObjectRow>)
      ensures calm ==> err != DbFailed
      ensures err == MetaOk ==> id in objects && row == Some(objects[id])
      ensures err == NotFound ==> id !in objects
      ensures err == MetaOk || err == NotFound || err == DbFailed
    {
      var fails := Fails(calm);
      if fails {
        return DbFailed, None;
      }
      if id !in objects {
        return NotFound, None;
      }
      return MetaOk, Some(objects[id]);
    }

    method DeleteObject(id: ObjectId, calm: bool) returns (err: MetaErr, row: Option<ObjectRow>)
      modifies this`objects
      ensures calm ==> err != DbFailed
      ensures err == MetaOk ==> id in old(objects) && row == Some(old(objects)[id])
      ensures err == NotFound ==> id !in old(objects)
      ensures err == MetaOk || err == NotFound || err == DbFailed
      ensures objects == if err == MetaOk then old(objects) - {id} else old(objects)
    {
      var fails := Fails(calm);
      if fails {
        return DbFailed, None;
      }
      if id !in objects {
        return NotFound, None;
      }
      row := Some(objects[id]);
      objects := objects - {id};
      return MetaOk, row;
    }

    /** The primary key refuses an upload id that is taken. */
    method CreateMultipart(uploadId: string, row: UploadRow, calm: bool) returns (err: MetaErr)
      modifies this`uploads
      ensures calm && uploadId !in old(uploads) ==> err != DbFailed
      ensures err == MetaOk || err == DbFailed
      ensures err == MetaOk ==> uploadId !in old(uploads)
      ensures uploads == if err == MetaOk then old(uploads)[uploadId := row] else old(uploads)
    {
      if uploadId in uploads {
        return DbFailed;
      }
      var fails := Fails(calm);
      if fails {
        return DbFailed;
      }
      uploads := uploads[uploadId := row];
      return MetaOk;
    }

    method GetMultipart(uploadId: string, calm: bool) returns (err: MetaErr, row: Option<UploadRow>)
      ensures calm ==> err != DbFailed
      ensures err == MetaOk ==> uploadId in uploads && row == Some(uploads[uploadId])
      ensures err == UploadNotFound ==> uploadId !in uploads
      ensures err == MetaOk || err == UploadNotFound || err == DbFailed
    {
      var fails := Fails(calm);
      if fails {
        return DbFailed, None;
      }
      if uploadId !in uploads {
        return UploadNotFound, None;
      }
      return MetaOk, Some(uploads[uploadId]);
    }

    method DeleteMultipart(uploadId: string, calm: bool) returns (err: MetaErr)
      modifies this`uploads, this`parts
      ensures calm ==> err != DbFailed
      ensures err == UploadNotFound ==> uploadId !in old(uploads)
      ensures err == MetaOk || err == UploadNotFound || err == DbFailed
      ensures uploads == if err == MetaOk then old(uploads) - {uploadId} else old(uploads)
      ensures parts == if err == MetaOk then map p | p in old(parts) && p.0 != uploadId :: old(parts)[p] else old(parts)
    {
      var fails := Fails(calm);
      if fails {
        return DbFailed;
      }
      if uploadId !in uploads {
        return UploadNotFound;
      }
      parts := map p | p in parts && p.0 != uploadId :: parts[p];
      uploads := uploads - {uploadId};
      return MetaOk;
    }

    method UpsertPart(id: PartId, row: PartRow, calm: bool) returns (err: MetaErr)
      modifies this`parts
      ensures calm ==> err != DbFailed
      ensures err == MetaOk || err == DbFailed
      ensures parts == if err == MetaOk then old(parts)[id := row] else old(parts)
    {
      var fails := Fails(calm);
      if fails {
        return DbFailed;
      }
      parts := parts[id := row];
      return MetaOk;
    }

    /** The rows of an upload's parts, each under its part number. */
    method ListParts(uploadId: string, calm: bool) returns (err: MetaErr, have: map<nat, PartRow>)
      ensures calm ==> err != DbFailed
      ensures err == MetaOk || err == DbFailed
      ensures err == MetaOk ==>
                forall n :: (n in have <==> (uploadId, n) in parts) && (n in have ==> have[n] == parts[(uploadId, n)])
    {
      var fails := Fails(calm);
      if fails {
        return DbFailed, map[];
      }
      have := map n | n in (set p | p in parts && p.0 == uploadId :: p.1) :: parts[(uploadId, n)];
      return MetaOk, have;
    }
  }
}
