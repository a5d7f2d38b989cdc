/**
 * What the AWS sample's `put` guarantees, stated about its reference
 * definition `AwsPut.PutSpec` (which the byte-at-a-time method `AwsPut.Put`
 * is proved to follow): the calls of a failure-free upload, the fallback to
 * a single put, the abort on failures inside the `try`, and the completion
 * that lists every part in order.
 */
module AwsPutProperties {
  import opened Common
  import opened Chunking
  import opened AwsPut

  /** The calls `put` makes inside the `try` when no call fails and the stream ends normally. */
  function FreePlan(cfg: Config, s: seq<byte>): seq<Call>
    requires cfg.Valid()
  {
    FullUploads(FullParts(s, cfg.part), 1, cfg.part) + Closing(cfg, s)
  }

  /** The bytes uploaded by the part uploads among `calls`, in call order. */
  function PartsData(calls: seq<Call>): seq<byte>
    decreases |calls|
  {
    if |calls| == 0 then []
    else (if calls[0].UploadPart? then calls[0].data else []) + PartsData(calls[1..])
  }

  // ---------------------------------------------------------------------
  // Helpers
  // ---------------------------------------------------------------------

  /** When the stream ends normally, the body is the free plan run against the oracle. */
  lemma BodyAsRun(cfg: Config, o: S3Object, fails: Failures)
    requires cfg.Valid() && o.readError.None?
    ensures Body(cfg, o, fails) == Run(FreePlan(cfg, o.content), 1, fails)
  {
    var plan := FullUploads(FullParts(o.content, cfg.part), 1, cfg.part);
    if Run(plan, 1, fails).thrown.Some? {
      RunAppendThrown(plan, Closing(cfg, o.content), 1, fails);
    } else {
      RunAppend(plan, Closing(cfg, o.content), 1, fails);
    }
  }

  lemma {:induction false} TagsOfFullUploads(parts: seq<seq<byte>>, first: int, size: int, at: nat)
    ensures TagsOf(FullUploads(parts, first, size), at)
         == seq(|parts|, j requires 0 <= j < |parts| => PartTag(first + j, at + j))
    decreases |parts|
  {
    if |parts| > 0 {
      TagsOfFullUploads(parts[1..], first + 1, size, at + 1);
      assert FullUploads(parts, first, size)[1..] == FullUploads(parts[1..], first + 1, size);
    }
  }

  lemma {:induction false} PartsDataAppend(a: seq<Call>, b: seq<Call>)
    ensures PartsData(a + b) == PartsData(a) + PartsData(b)
    decreases |a|
  {
    if |a| > 0 {
      assert (a + b)[1..] == a[1..] + b;
      PartsDataAppend(a[1..], b);
    } else {
      assert a + b == b;
    }
  }

  lemma {:induction false} PartsDataFullUploads(parts: seq<seq<byte>>, first: int, size: int)
    ensures PartsData(FullUploads(parts, first, size)) == Concat(parts)
    decreases |parts|
  {
    if |parts| > 0 {
      PartsDataFullUploads(parts[1..], first + 1, size);
      assert FullUploads(parts, first, size)[1..] == FullUploads(parts[1..], first + 1, size);
    }
  }

  /** The last call inside the `try` of a multipart upload, if there is one, uploads the remainder as the next part. */
  lemma ClosingShape(cfg: Config, s: seq<byte>)
    requires cfg.Valid() && !SingleShot(cfg, s)
    ensures Closing(cfg, s) == [] ==> Rest(s, cfg.part) == [] && |FullParts(s, cfg.part)| > 0
    ensures Closing(cfg, s) != [] ==>
              Closing(cfg, s) == [UploadPart(|FullParts(s, cfg.part)| + 1, Rest(s, cfg.part), LastPartSize(cfg, s))]
  {
  }

  // ---------------------------------------------------------------------
  // Failure-free uploads
  // ---------------------------------------------------------------------

  /**
   * Without failures, `put` initiates, uploads every full part, makes the
   * closing calls, and completes unless it fell back to the single put.
   */
  lemma FreeTrace(cfg: Config, bucket: string, o: S3Object)
    requires cfg.Valid() && o.readError.None?
    ensures PutSpec(cfg, bucket, Some(o), map[])
         == PutRun([Initiate(bucket, o.key)] + FreePlan(cfg, o.content)
                   + (if SingleShot(cfg, o.content) then [] else [Complete(TagsOf(FreePlan(cfg, o.content), 1))]),
                   Done)
  {
    BodyAsRun(cfg, o, map[]);
    RunNoFailures(FreePlan(cfg, o.content), 1);
  }

  /**
   * An object smaller than the minimum part size is stored by one put of all
   * its bytes, after the multipart session opened for it is aborted.
   */
  lemma SmallInputSingleShot(cfg: Config, bucket: string, key: string, s: seq<byte>)
    requires cfg.Valid() && |s| < cfg.min
    ensures PutSpec(cfg, bucket, Some(S3Object(key, s, None)), map[])
         == PutRun([Initiate(bucket, key), Abort, PutObject(s, |s|)], Done)
  {
    FreeTrace(cfg, bucket, S3Object(key, s, None));
    assert FullParts(s, cfg.part) == [] && Rest(s, cfg.part) == s;
  }

  /**
   * An object of at least the minimum size is uploaded in parts numbered
   * 1, 2, ... which together hold exactly its bytes, and the completion
   * lists every part in order with the tag its upload returned.
   */
  lemma LargeInputCompletes(cfg: Config, bucket: string, o: S3Object)
    requires cfg.Valid() && o.readError.None? && |o.content| >= cfg.min
    ensures var r := PutSpec(cfg, bucket, Some(o), map[]);
            var n := |r.trace| - 2;
            && r.outcome == Done
            && n >= 1
            && r.trace[0] == Initiate(bucket, o.key)
            && (forall j :: 1 <= j <= n ==> r.trace[j].UploadPart? && r.trace[j].partNumber == j)
            && PartsData(r.trace[1..n + 1]) == o.content
            && r.trace[n + 1] == Complete(seq(n, j requires 0 <= j < n => PartTag(j + 1, j + 1)))
  {
    var plan := FreePlan(cfg, o.content);
    FreeTrace(cfg, bucket, o);
    LargePlanShape(cfg, o.content);
    var r := PutSpec(cfg, bucket, Some(o), map[]);
    assert r.trace == [Initiate(bucket, o.key)] + plan + [Complete(TagsOf(plan, 1))];
    assert r.trace[1..|plan| + 1] == plan;
  }

  /** The calls of a failure-free multipart upload: parts numbered from 1 that carry all the bytes. */
  lemma LargePlanShape(cfg: Config, s: seq<byte>)
    requires cfg.Valid() && |s| >= cfg.min
    ensures var plan := FreePlan(cfg, s);
            && |plan| >= 1
            && (forall j :: 0 <= j < |plan| ==> plan[j].UploadPart? && plan[j].partNumber == j + 1)
            && PartsData(plan) == s
            && TagsOf(plan, 1) == seq(|plan|, j requires 0 <= j < |plan| => PartTag(j + 1, j + 1))
  {
    var parts := FullParts(s, cfg.part);
    var uploads := FullUploads(parts, 1, cfg.part);
    var closing := Closing(cfg, s);
    ClosingShape(cfg, s);
    ChunksReassemble(s, cfg.part);
    PartsDataAppend(uploads, closing);
    PartsDataFullUploads(parts, 1, cfg.part);
    TagsOfAppend(uploads, closing, 1);
    TagsOfFullUploads(parts, 1, cfg.part, 1);
    if closing != [] {
      assert PartsData(closing) == Rest(s, cfg.part);
      assert TagsOf(closing, 1 + |uploads|) == [PartTag(|parts| + 1, 1 + |parts|)];
    }
  }

  /**
   * The sample as written: an object of exactly `k` full parts ends with an
   * extra, empty part `k + 1` whose declared size is a full part, because
   * `currentPartSize` still holds the size of the last flushed part.
   */
  lemma ExactMultipleUploadsEmptyPart(cfg: Config, bucket: string, key: string, s: seq<byte>, k: nat)
    requires cfg.Valid() && !cfg.resetsSize
    requires k >= 1 && |s| == k * cfg.part
    ensures var r := PutSpec(cfg, bucket, Some(S3Object(key, s, None)), map[]);
            && |r.trace| == k + 3
            && r.trace[..k + 1] == [Initiate(bucket, key)] + FullUploads(FullParts(s, cfg.part), 1, cfg.part)
            && r.trace[k + 1] == UploadPart(k + 1, [], cfg.part)
  {
    ChunksOfMultiple(s, k, cfg.part);
    FreeTrace(cfg, bucket, S3Object(key, s, None));
  }

  /** Two full parts of zeros with the sample's sizes: the third upload is empty yet declared as 50 MiB. */
  lemma ExactMultipleExample(bucket: string, key: string)
    ensures var s := seq(2 * AsWritten.part, _ => 0 as byte);
            PutSpec(AsWritten, bucket, Some(S3Object(key, s, None)), map[]).trace[3]
            == UploadPart(3, [], 50 * 1024 * 1024)
  {
    var s := seq(2 * AsWritten.part, _ => 0 as byte);
    ExactMultipleUploadsEmptyPart(AsWritten, bucket, key, s, 2);
  }

  /**
   * With `currentPartSize` reset when a part is flushed, every part
   * uploaded without failures is non-empty and declares its true size, and
   * there is one part per full part plus one for a non-empty remainder.
   */
  lemma CorrectedPartsExact(cfg: Config, bucket: string, o: S3Object)
    requires cfg.Valid() && cfg.resetsSize && o.readError.None? && |o.content| >= cfg.min
    ensures var r := PutSpec(cfg, bucket, Some(o), map[]);
            var s := o.content;
            && |r.trace| - 2 == |FullParts(s, cfg.part)| + (if Rest(s, cfg.part) == [] then 0 else 1)
            && forall j :: 1 <= j <= |r.trace| - 2 ==>
                 r.trace[j].UploadPart? && r.trace[j].declaredSize == |r.trace[j].data| > 0
  {
    var s := o.content;
    var plan := FreePlan(cfg, s);
    FreeTrace(cfg, bucket, o);
    ClosingShape(cfg, s);
    var r := PutSpec(cfg, bucket, Some(o), map[]);
    assert forall j :: 1 <= j <= |plan| ==> r.trace[j] == plan[j - 1];
  }

  // ---------------------------------------------------------------------
  // Failures
  // ---------------------------------------------------------------------

  /**
   * A failure of any call inside the `try` stops the upload there and is
   * followed by one abort; the caller sees the failure, or the abort's own
   * exception when the abort fails too.
   */
  lemma TryFailureAborts(cfg: Config, bucket: string, o: S3Object, fails: Failures, k: nat)
    requires cfg.Valid() && o.readError.None?
    requires 1 <= k <= |FreePlan(cfg, o.content)| && k in fails
    requires forall j :: 0 <= j < k ==> j !in fails
    ensures PutSpec(cfg, bucket, Some(o), fails)
         == PutRun([Initiate(bucket, o.key)] + FreePlan(cfg, o.content)[..k] + [Abort],
                   Threw(if k + 1 in fails then fails[k + 1] else fails[k]))
  {
    BodyAsRun(cfg, o, fails);
    RunFirstFailure(FreePlan(cfg, o.content), 1, fails, k);
  }

  /**
   * When the single put that replaces a small upload fails, the session,
   * already aborted, is aborted a second time.
   */
  lemma FallbackFailureAbortsTwice(cfg: Config, bucket: string, key: string, s: seq<byte>, e: Error)
    requires cfg.Valid() && |s| < cfg.min
    ensures PutSpec(cfg, bucket, Some(S3Object(key, s, None)), map[2 := e])
         == PutRun([Initiate(bucket, key), Abort, PutObject(s, |s|), Abort], Threw(e))
  {
    var o := S3Object(key, s, None);
    assert FullParts(s, cfg.part) == [] && Rest(s, cfg.part) == s;
    assert FreePlan(cfg, s) == [Abort, PutObject(s, |s|)];
    TryFailureAborts(cfg, bucket, o, map[2 := e], 2);
  }

  /**
   * A stream that throws after delivering its bytes leaves the full parts
   * uploaded, aborts the session and rethrows the stream's exception.
   */
  lemma ReadErrorAborts(cfg: Config, bucket: string, key: string, s: seq<byte>, e: Error, fails: Failures)
    requires cfg.Valid()
    requires forall j :: 0 <= j <= |FullParts(s, cfg.part)| ==> j !in fails
    ensures var abortAt := 1 + |FullParts(s, cfg.part)|;
            PutSpec(cfg, bucket, Some(S3Object(key, s, Some(e))), fails)
            == PutRun([Initiate(bucket, key)] + FullUploads(FullParts(s, cfg.part), 1, cfg.part) + [Abort],
                      Threw(if abortAt in fails then fails[abortAt] else e))
  {
    var ups := FullUploads(FullParts(s, cfg.part), 1, cfg.part);
    assert |ups| == |FullParts(s, cfg.part)|;
    assert Run(ups, 1, fails) == Exec(ups, None);
  }

  /**
   * The completion sits outside the `try`: when it fails, nothing aborts
   * the session, and the exception reaches the caller.
   */
  lemma CompleteFailureNotAborted(cfg: Config, bucket: string, o: S3Object, e: Error)
    requires cfg.Valid() && o.readError.None? && !SingleShot(cfg, o.content)
    ensures var plan := FreePlan(cfg, o.content);
            PutSpec(cfg, bucket, Some(o), map[1 + |plan| := e])
            == PutRun([Initiate(bucket, o.key)] + plan + [Complete(TagsOf(plan, 1))], Threw(e))
  {
    var plan := FreePlan(cfg, o.content);
    BodyAsRun(cfg, o, map[1 + |plan| := e]);
    assert Run(plan, 1, map[1 + |plan| := e]).thrown.None?;
  }

  /**
   * Every session `put` opens is closed by its last call: an abort, a
   * completion, or the single put that follows an abort; the upload only
   * succeeds through a completion or that single put.
   */
  lemma SessionClosed(cfg: Config, bucket: string, o: S3Object, fails: Failures)
    requires cfg.Valid() && 0 !in fails
    ensures var r := PutSpec(cfg, bucket, Some(o), fails);
            var last := r.trace[|r.trace| - 1];
            && |r.trace| >= 2
            && (last.Abort? || last.Complete? || (last.PutObject? && r.trace[|r.trace| - 2].Abort?))
            && (r.outcome == Done ==> last.Complete? || last.PutObject?)
  {
    var s := o.content;
    var body := Body(cfg, o, fails);
    if body.thrown.None? && SingleShot(cfg, s) {
      var loop := Loop(cfg, s, fails);
      assert FullParts(s, cfg.part) == [];
      assert loop.done == [];
      assert body.done == Closing(cfg, s);
    }
  }
}
