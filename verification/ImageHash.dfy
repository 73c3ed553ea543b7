/** The timer-driven hashing of a received firmware image (ComputeMD5Digest and CalculateMD5 of
    lcs_iup.c): at most 128 image bytes per event, one byte per MD5Update. */
module ImageHash {
  import opened Bytes
  import opened Md5

  const SALT_LENGTH := 16

  class ImageHasher {
    const ctx: Md5Context
    const image: seq<byte>     // the passive partition, from its start to the image length
    var saltBytes: seq<byte>
    var digestBytes: seq<byte>
    var fileSizeTemp: nat
    var eventPending: bool     // iupMd5EventTimer is running
    var imageValidated: bool
    var digestMatch: bool

    /** The message hashed so far by the run that started with `salt`. */
    ghost function Consumed(salt: seq<byte>): seq<byte>
      requires fileSizeTemp <= |image|
      reads this`fileSizeTemp
    {
      salt + image[..fileSizeTemp]
    }

    /** A run is under way: every image byte before fileSizeTemp has gone in once and in order, and the
        position is at a multiple of 128 or at the end. */
    ghost predicate Hashing(salt: seq<byte>)
      reads this, ctx, ctx.data
    {
      && fileSizeTemp <= |image| < 0x1_0000_0000
      && (fileSizeTemp % 128 == 0 || fileSizeTemp == |image|)
      && ctx.Holds(Consumed(salt))
    }

    constructor (ctx: Md5Context, image: seq<byte>)
      ensures this.ctx == ctx && this.image == image
    {
      this.ctx, this.image := ctx, image;
      saltBytes, digestBytes := [], [];
      fileSizeTemp := 0;
      eventPending, imageValidated, digestMatch := false, false, false;
    }

    /** One byte of the source's loops over MD5Update. */
    method Feed(bytes: seq<byte>, ghost m: seq<byte>)
      requires ctx.Holds(m)
      modifies ctx, ctx.data
      ensures ctx.Holds(m + bytes)
    {
      var i := 0;
      assert m + bytes[..0] == m;
      hide Md5Context.Holds;
      while i < |bytes|
        invariant i <= |bytes| && ctx.Holds(m + bytes[..i])
      {
        ctx.Update([bytes[i]], m + bytes[..i]);
        assert m + bytes[..i] + [bytes[i]] == m + bytes[..i + 1];
        i := i + 1;
      }
      assert bytes[..i] == bytes;
    }

    /** `ComputeMD5Digest`; `verified` is the outcome of VerifyImage. */
    method ComputeMD5Digest(verified: bool)
      requires ctx.data.Length == 64 && |saltBytes| == SALT_LENGTH && |image| < 0x1_0000_0000
      modifies this`fileSizeTemp, this`eventPending, this`imageValidated, this`digestMatch, ctx, ctx.data
      ensures Hashing(saltBytes) && eventPending && fileSizeTemp == 0
      ensures !verified ==> imageValidated && !digestMatch
    {
      hide Md5Context.Holds;
      ctx.Init();
      if !verified {
        imageValidated := true;
        digestMatch := false;
      }
      Feed(saltBytes, []);
      fileSizeTemp := 0;
      eventPending := true;
      assert [] + saltBytes == saltBytes == Consumed(saltBytes);
    }

    /** The next n image bytes go in. */
    method Advance(n: nat, ghost salt: seq<byte>)
      requires Hashing(salt) && fileSizeTemp + n <= |image|
      requires n == 128 || fileSizeTemp + n == |image|
      requires fileSizeTemp % 128 == 0
      modifies this`fileSizeTemp, ctx, ctx.data
      ensures Hashing(salt) && fileSizeTemp == old(fileSizeTemp) + n
    {
      hide Md5Context.Holds;
      ghost var m := Consumed(salt);
      Feed(image[fileSizeTemp..fileSizeTemp + n], m);
      fileSizeTemp := fileSizeTemp + n;
      assert image[..fileSizeTemp] == image[..fileSizeTemp - n] + image[fileSizeTemp - n..fileSizeTemp];
      assert Consumed(salt) == m + image[fileSizeTemp - n..fileSizeTemp];
    }

    /** `CalculateMD5`: one more chunk, or the comparison once the whole image has gone in. */
    method CalculateMD5(ghost salt: seq<byte>)
      requires Hashing(salt)
      modifies this`fileSizeTemp, this`eventPending, this`imageValidated, this`digestMatch, ctx, ctx.data
      ensures old(fileSizeTemp) < |image| ==>
        && Hashing(salt) && eventPending && fileSizeTemp == Min(old(fileSizeTemp) + 128, |image|)
        && imageValidated == old(imageValidated) && digestMatch == old(digestMatch)
      ensures old(fileSizeTemp) == |image| ==>
        && !eventPending && imageValidated && fileSizeTemp == 0
        && digestMatch == (Digest(ctx.f, salt + image) == digestBytes)
    {
      hide Md5Context.Holds;
      var surPlus := |image| % 128;
      eventPending := false;   // the timer that led here has fired
      if fileSizeTemp < |image| {
        if |image| - fileSizeTemp == surPlus {
          Advance(surPlus, salt);
        } else {
          WholeChunkLeft(fileSizeTemp, |image|);
          Advance(128, salt);
        }
        eventPending := true;
      } else {
        assert Consumed(salt) == salt + image;
        var digestResp := ctx.Final(salt + image);
        digestMatch := digestResp == digestBytes;
        imageValidated := true;
        fileSizeTemp := 0;
      }
    }

    /** The scheduler loop answering the event timer: for every image length, also multiples of 128, the
        run ends and the verdict is that of the digest of the salt followed by the whole image. A failed
        VerifyImage at the start does not survive to the end of the run. */
    method RunEvents(verified: bool)
      requires ctx.data.Length == 64 && |saltBytes| == SALT_LENGTH && |image| < 0x1_0000_0000
      modifies this`fileSizeTemp, this`eventPending, this`imageValidated, this`digestMatch, ctx, ctx.data
      ensures imageValidated && !eventPending
      ensures digestMatch <==> Digest(ctx.f, saltBytes + image) == digestBytes
    {
      ComputeMD5Digest(verified);
      hide Hashing;
      while eventPending
        invariant eventPending ==> Hashing(saltBytes)
        invariant !eventPending ==> imageValidated && (digestMatch <==> Digest(ctx.f, saltBytes + image) == digestBytes)
        decreases if eventPending then |image| - fileSizeTemp + 1 else 0
      {
        CalculateMD5(saltBytes);
      }
    }
  }

  /** Away from the last, partial chunk there are always 128 bytes to read. */
  lemma WholeChunkLeft(at: nat, len: nat)
    requires at < len && at % 128 == 0 && len - at != len % 128
    ensures at + 128 <= len
  {}
}
