/** The blob store behind the service: one message per blob, each under an id of its own. */
module Backend {
  import opened Bytes
  import opened Environment
  import opened Io
  import opened FrameFormat
  import opened Encrypting

  datatype PutResult = Stored(messageId: int) | TooLarge | PutFailed(err: Err)

  datatype GetErr = GetOk | Missing | Unreachable

  /** Nothing but possibly one message under that id was added. */
  ghost predicate AtMostOneNew(before: map<int, Bytes>, after: map<int, Bytes>, id: int) {
    after == before || (id in after && after == before[id := after[id]])
  }

  class Backend {
    const maxObjectSize: int
    var messages: map<int, Bytes>
    var nextId: int

    /** Ids are given out in order and never again. */
    ghost predicate Valid()
      reads this
    {
      forall id :: id in messages ==> id < nextId
    }

    constructor (maxObjectSize: int)
      ensures Valid() && this.maxObjectSize == maxObjectSize && messages == map[]
    {
      this.maxObjectSize, messages, nextId := maxObjectSize, map[], 1;
    }

    /**
     * Uploads exactly `size` bytes from r, which the caller has checked against the ceiling. A failed
     * upload may still have left a message behind (its reply was lost), but never under an id that was
     * in use. While it is calm only a stream that is too short fails.
     */
    method Put(size: nat, r: Encrypter, bufSize: nat -> nat, calm: bool) returns (res: PutResult)
      requires Valid() && r.Valid() && size <= maxObjectSize && forall k :: bufSize(k) > 0
      modifies this, r, r.src
      ensures Valid() && r.Valid() && r.Complete() == old(r.Complete())
      ensures AtMostOneNew(old(messages), messages, old(nextId))
      ensures calm ==> !res.TooLarge? && (res.Stored? <==> size <= |old(r.ToCome())|)
      ensures res.Stored? ==> res.messageId == old(nextId) && size <= |old(r.ToCome())|
      ensures res.Stored? ==> messages == old(messages)[old(nextId) := old(r.ToCome())[..size]]
      ensures res.Stored? && r.Complete() ==> r.src.pos + r.remain == old(r.src.pos + r.remain)
      ensures res.Stored? ==> |r.ToCome()| == |old(r.ToCome())| - size
    {
      var fails := Fails(calm);
      if fails {
        return TooLarge;
      }
      ghost var stream := r.ToCome();
      var got, err := CopyN(r, size, bufSize);
      if err != NoErr {
        return PutFailed(err);
      }
      assert got == stream[..size];
      fails := Fails(calm);
      if fails {
        return PutFailed(SourceErr(1));
      }
      var messageId := nextId;
      messages, nextId := messages[messageId := got], nextId + 1;
      fails := Fails(calm);
      if fails {
        return PutFailed(SourceErr(1));
      }
      return Stored(messageId);
    }

    /** Downloads a message; unless it is calm the connection may break after the first `lost` bytes. */
    method Get(messageId: int, lost: nat, calm: bool) returns (err: GetErr, src: Source<Byte>)
      ensures fresh(src) && src.Valid() && src.pos == 0
      ensures err == Missing ==> messageId !in messages
      ensures err == GetOk ==> messageId in messages && src.data <= messages[messageId]
      ensures err == GetOk && src.tail == CleanEnd ==> src.data == messages[messageId]
      ensures calm && messageId in messages ==> err == GetOk && src.tail == CleanEnd
    {
      src := new Source<Byte>([], CleanEnd);
      var fails := Fails(calm);
      if fails {
        return Unreachable, src;
      }
      if messageId !in messages {
        return Missing, src;
      }
      fails := Fails(calm);
      if fails {
        var arrived := Min(lost, |messages[messageId]|);
        src := new Source<Byte>(messages[messageId][..arrived], Broken(1));
      } else {
        src := new Source<Byte>(messages[messageId], CleanEnd);
      }
      return GetOk, src;
    }

    /** Best effort. */
    method Delete(messageId: int, calm: bool)
      requires Valid()
      modifies this`messages
      ensures Valid()
      ensures messages == old(messages) || messages == old(messages) - {messageId}
      ensures calm ==> messages == old(messages) - {messageId}
    {
      var fails := Fails(calm);
      if !fails {
        messages := messages - {messageId};
      }
    }
  }
}
