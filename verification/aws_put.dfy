/**
 * `put` of the AWS sample: the object's stream is read one byte at a time
 * into a buffer that is uploaded as the next numbered part each time it
 * reaches the part size. At the end of the stream the session is either
 * aborted in favour of a single put (no full part and less than the minimum
 * size) or the buffered remainder is uploaded and the session completed.
 *
 * The storage client is modelled by the trace of calls the service makes on
 * it, and its failures by an oracle naming, for each position in that trace,
 * the exception the call at that position throws.
 */
module AwsPut {
  import opened Common
  import opened Chunking

  /**
   * The tag `uploadPart` returns for a part. The client's ETag is opaque; it
   * is represented by the position of the upload call in the trace, which
   * identifies the call that produced it.
   */
  datatype PartTag = PartTag(partNumber: int, etag: nat)

  /** A call the service makes on the S3 client for one upload session. */
  datatype Call =
    | Initiate(bucket: string, key: string)
    | UploadPart(partNumber: int, data: seq<byte>, declaredSize: int)
    | Abort
    | PutObject(data: seq<byte>, contentLength: int)
    | Complete(tags: seq<PartTag>)

  /**
   * The upload's parameters: the part size at which the buffer is flushed,
   * the total size below which an upload without any full part falls back to
   * a single put, and whether `currentPartSize` is reset when the buffer is
   * flushed (the sample does not reset it).
   */
  datatype Config = Config(part: nat, min: nat, resetsSize: bool) {
    predicate Valid() {
      part > min > 0
    }
  }

  /** The sample's sizes, parts of 50 MiB and single puts below 5 MiB, as the sample writes the loop. */
  const AsWritten: Config := Config(50 * 1024 * 1024, 5 * 1024 * 1024, false)

  /** The same upload with `currentPartSize` reset to zero when a part is flushed. */
  const Corrected: Config := Config(50 * 1024 * 1024, 5 * 1024 * 1024, true)

  /** The exception thrown by the client call at each failing position of the trace. */
  type Failures = map<nat, Error>

  /**
   * The object handed to `put`: its key and the bytes its stream delivers,
   * after which the stream reports its end, or throws `readError`.
   */
  datatype S3Object = S3Object(key: string, content: seq<byte>, readError: Option<Error>)

  datatype Outcome = Done | Threw(error: Error)

  /** The calls one `put` makes, in order, and how it ends. */
  datatype PutRun = PutRun(trace: seq<Call>, outcome: Outcome)

  // ---------------------------------------------------------------------
  // Planned calls
  // ---------------------------------------------------------------------

  /** One upload per full part, numbered consecutively from `first`, each declared `size` bytes. */
  function FullUploads(parts: seq<seq<byte>>, first: int, size: int): (calls: seq<Call>)
    ensures |calls| == |parts|
    ensures forall j :: 0 <= j < |calls| ==> calls[j] == UploadPart(first + j, parts[j], size)
    decreases |parts|
  {
    if |parts| == 0 then [] else [UploadPart(first, parts[0], size)] + FullUploads(parts[1..], first + 1, size)
  }

  /**
   * The value `currentPartSize` holds when the stream ends. It is set to the
   * buffer size after every byte; unless it is reset when the buffer is
   * flushed, after a flush on the last byte it still holds a full part size.
   */
  function LastPartSize(cfg: Config, s: seq<byte>): (size: nat)
    requires cfg.Valid()
    ensures size == |Rest(s, cfg.part)| || (size == cfg.part && Rest(s, cfg.part) == [])
  {
    if !cfg.resetsSize && |FullParts(s, cfg.part)| > 0 && Rest(s, cfg.part) == [] then cfg.part
    else |Rest(s, cfg.part)|
  }

  /** No full part was uploaded (`i == 1`) and `currentPartSize` is under the minimum. */
  predicate SingleShot(cfg: Config, s: seq<byte>)
    requires cfg.Valid()
  {
    |FullParts(s, cfg.part)| == 0 && LastPartSize(cfg, s) < cfg.min
  }

  /** The calls made inside the `try` after the read loop, when nothing fails. */
  function Closing(cfg: Config, s: seq<byte>): seq<Call>
    requires cfg.Valid()
  {
    var size := LastPartSize(cfg, s);
    if SingleShot(cfg, s) then [Abort, PutObject(Rest(s, cfg.part), size)]
    else if 0 < size <= cfg.part then [UploadPart(|FullParts(s, cfg.part)| + 1, Rest(s, cfg.part), size)]
    else []
  }

  /** The tags of the uploads among `calls`, where `calls[0]` sits at trace position `at`. */
  function TagsOf(calls: seq<Call>, at: nat): seq<PartTag>
    decreases |calls|
  {
    if |calls| == 0 then []
    else
      var rest := TagsOf(calls[1..], at + 1);
      if calls[0].UploadPart? then [PartTag(calls[0].partNumber, at)] + rest else rest
  }

  // ---------------------------------------------------------------------
  // Executing planned calls against the failure oracle
  // ---------------------------------------------------------------------

  /** The calls actually made and the exception, if any, that stopped them. */
  datatype Exec = Exec(done: seq<Call>, thrown: Option<Error>)

  /**
   * How many calls, from trace position `at` on, get through before the
   * first failing position among the next `n`; `n` when none of them fails.
   */
  function FirstFail(n: nat, at: nat, fails: Failures): (k: nat)
    ensures k <= n
    ensures forall j :: at <= j < at + k ==> j !in fails
    ensures k < n ==> at + k in fails
    decreases n
  {
    if n == 0 || at in fails then 0 else 1 + FirstFail(n - 1, at + 1, fails)
  }

  /** The offset of the first failure is the only offset with its two properties. */
  lemma {:induction false} FirstFailUnique(n: nat, at: nat, fails: Failures, k: nat)
    requires k <= n
    requires forall j :: at <= j < at + k ==> j !in fails
    requires k < n ==> at + k in fails
    ensures FirstFail(n, at, fails) == k
    decreases n
  {
    if n > 0 && k > 0 {
      assert at !in fails;
      FirstFailUnique(n - 1, at + 1, fails, k - 1);
    }
  }

  /**
   * Making the calls of `plan` in order, the first at trace position `at`,
   * until one throws. The calls made are a prefix of the plan; the plan runs
   * to its end exactly when none of its positions fails, and otherwise it
   * stops at the first failing position with that position's exception.
   */
  function Run(plan: seq<Call>, at: nat, fails: Failures): (e: Exec)
    ensures e.done <= plan
    ensures e.thrown.None? <==> forall j :: at <= j < at + |plan| ==> j !in fails
    ensures e.thrown.None? ==> e.done == plan
    ensures e.thrown.Some? ==>
              && 1 <= |e.done|
              && at + |e.done| - 1 in fails
              && e.thrown.value == fails[at + |e.done| - 1]
              && forall j :: at <= j < at + |e.done| - 1 ==> j !in fails
  {
    var k := FirstFail(|plan|, at, fails);
    if k == |plan| then Exec(plan, None) else Exec(plan[..k + 1], Some(fails[at + k]))
  }

  /** A run that stopped early ignores whatever the plan holds after it. */
  lemma RunAppendThrown(a: seq<Call>, b: seq<Call>, at: nat, fails: Failures)
    requires Run(a, at, fails).thrown.Some?
    ensures Run(a + b, at, fails) == Run(a, at, fails)
  {
    var k := FirstFail(|a|, at, fails);
    FirstFailUnique(|a + b|, at, fails, k);
    assert (a + b)[..k + 1] == a[..k + 1];
  }

  /** A run that got through `a` goes on with `b` at the next position. */
  lemma RunAppend(a: seq<Call>, b: seq<Call>, at: nat, fails: Failures)
    requires Run(a, at, fails).thrown.None?
    ensures Run(a + b, at, fails) == Exec(a + Run(b, at + |a|, fails).done, Run(b, at + |a|, fails).thrown)
  {
    var k := FirstFail(|b|, at + |a|, fails);
    FirstFailUnique(|a + b|, at, fails, |a| + k);
    if k < |b| {
      assert (a + b)[..|a| + k + 1] == a + b[..k + 1];
    } else {
      assert a + b == a + b;
    }
  }

  /** A run into which nothing can fail makes every planned call. */
  lemma RunNoFailures(plan: seq<Call>, at: nat)
    ensures Run(plan, at, map[]) == Exec(plan, None)
  {
  }

  /** A run whose first failing position is `k` makes the planned calls up to and including that one. */
  lemma RunFirstFailure(plan: seq<Call>, at: nat, fails: Failures, k: nat)
    requires at <= k < at + |plan| && k in fails
    requires forall j :: at <= j < k ==> j !in fails
    ensures Run(plan, at, fails) == Exec(plan[..k - at + 1], Some(fails[k]))
  {
    FirstFailUnique(|plan|, at, fails, k - at);
  }

  // ---------------------------------------------------------------------
  // The reference definition
  // ---------------------------------------------------------------------

  /** The calls of the full-part uploads the read loop makes, and the exception that stopped them. */
  function Loop(cfg: Config, s: seq<byte>, fails: Failures): Exec
    requires cfg.Valid()
  {
    Run(FullUploads(FullParts(s, cfg.part), 1, cfg.part), 1, fails)
  }

  /**
   * The calls made inside the `try` (after the initiate call at position 0)
   * and the exception, if any, that ended it: the loop's uploads, then the
   * stream's exception or the closing calls.
   */
  function Body(cfg: Config, o: S3Object, fails: Failures): Exec
    requires cfg.Valid()
  {
    var loop := Loop(cfg, o.content, fails);
    if loop.thrown.Some? then loop
    else if o.readError.Some? then Exec(loop.done, o.readError)
    else
      var closing := Run(Closing(cfg, o.content), 1 + |loop.done|, fails);
      Exec(loop.done + closing.done, closing.thrown)
  }

  /**
   * What `put` does, stated on whole sequences: the initiate call outside
   * the `try`; inside it the body; on any exception in the `try` an abort
   * (whose own exception replaces the original one); otherwise, unless the
   * single put already returned, the completion outside the `try`, carrying
   * the tags of every uploaded part.
   */
  function PutSpec(cfg: Config, bucket: string, obj: Option<S3Object>, fails: Failures): PutRun
    requires cfg.Valid()
  {
    match obj
    case None => PutRun([], Threw(FileIsNull))
    case Some(o) =>
      var init := Initiate(bucket, o.key);
      if 0 in fails then PutRun([init], Threw(fails[0]))
      else
        var body := Body(cfg, o, fails);
        var trace := [init] + body.done;
        match body.thrown
        case Some(e) =>
          var abortAt := |trace|;
          PutRun(trace + [Abort], Threw(if abortAt in fails then fails[abortAt] else e))
        case None =>
          if SingleShot(cfg, o.content) then PutRun(trace, Done)
          else
            var completeAt := |trace|;
            PutRun(trace + [Complete(TagsOf(body.done, 1))],
                   if completeAt in fails then Threw(fails[completeAt]) else Done)
  }

  // ---------------------------------------------------------------------
  // The byte-at-a-time implementation
  // ---------------------------------------------------------------------

  lemma FullUploadsSnoc(parts: seq<seq<byte>>, last: seq<byte>, first: int, size: int)
    ensures FullUploads(parts + [last], first, size)
         == FullUploads(parts, first, size) + [UploadPart(first + |parts|, last, size)]
  {
  }

  lemma FullUploadsAppend(a: seq<seq<byte>>, b: seq<seq<byte>>, first: int, size: int)
    ensures FullUploads(a + b, first, size) == FullUploads(a, first, size) + FullUploads(b, first + |a|, size)
  {
  }

  lemma {:induction false} TagsOfAppend(a: seq<Call>, b: seq<Call>, at: nat)
    ensures TagsOf(a + b, at) == TagsOf(a, at) + TagsOf(b, at + |a|)
    decreases |a|
  {
    if |a| > 0 {
      assert (a + b)[1..] == a[1..] + b;
      TagsOfAppend(a[1..], b, at + 1);
    } else {
      assert a + b == b;
    }
  }

  lemma RunSnoc(plan: seq<Call>, c: Call, at: nat, fails: Failures)
    requires Run(plan, at, fails).thrown.None?
    ensures Run(plan + [c], at, fails)
         == Exec(plan + [c], if at + |plan| in fails then Some(fails[at + |plan|]) else None)
  {
    RunAppend(plan, [c], at, fails);
  }

  /**
   * The `while` loop of `put`: reading the stream byte by byte and uploading
   * the buffer as part `i` each time it holds a full part. The calls made
   * are the full-part uploads up to the first failing one; when none fails,
   * the buffer holds the remainder, `i` the next part number and `tags` the
   * tags of the uploads so far.
   */
  method ReadParts(cfg: Config, s: seq<byte>, fails: Failures)
    returns (done: seq<Call>, thrown: Option<Error>, tags: seq<PartTag>, i: int, currentPartSize: int, buffer: seq<byte>)
    requires cfg.Valid()
    ensures Loop(cfg, s, fails) == Exec(done, thrown)
    ensures thrown.None? ==> LoopState(cfg, s, done, tags, i, currentPartSize, buffer)
  {
    done, thrown, tags, i, currentPartSize, buffer := [], None, [], 1, 0, [];
    var pos := 0;
    while pos < |s| && thrown.None?
      invariant 0 <= pos <= |s|
      invariant Loop(cfg, s[..pos], fails) == Exec(done, thrown)
      invariant thrown.None? ==> LoopState(cfg, s[..pos], done, tags, i, currentPartSize, buffer)
      decreases |s| - pos
    {
      assert s[..pos + 1] == s[..pos] + [s[pos]];
      done, thrown, tags, i, currentPartSize, buffer := ReadByte(cfg, s[..pos], s[pos], fails, done, tags, i, buffer);
      pos := pos + 1;
    }
    StopsEarly(s, pos, cfg.part, fails, thrown.Some?);
    if thrown.None? {
      assert s[..pos] == s;
    }
  }

  /**
   * One iteration of the `while` loop: the byte `b` read after `p` is added
   * to the buffer, which is uploaded as part `i` when it is full.
   */
  method ReadByte(cfg: Config, p: seq<byte>, b: byte, fails: Failures, done0: seq<Call>, tags0: seq<PartTag>, i0: int, buffer0: seq<byte>)
    returns (done: seq<Call>, thrown: Option<Error>, tags: seq<PartTag>, i: int, currentPartSize: int, buffer: seq<byte>)
    requires cfg.Valid()
    requires Loop(cfg, p, fails) == Exec(done0, None)
    requires LoopState(cfg, p, done0, tags0, i0, LastPartSize(cfg, p), buffer0)
    ensures Loop(cfg, p + [b], fails) == Exec(done, thrown)
    ensures thrown.None? ==> LoopState(cfg, p + [b], done, tags, i, currentPartSize, buffer)
  {
    done, thrown, tags, i := done0, None, tags0, i0;
    buffer := buffer0 + [b];
    currentPartSize := |buffer|;
    if currentPartSize == cfg.part {
      var at := 1 + |done|;
      var call := UploadPart(i, buffer, currentPartSize);
      StepFull(cfg, p, b, fails, done, tags, i);
      done := done + [call];
      if at in fails {
        thrown := Some(fails[at]);
      } else {
        tags := tags + [PartTag(i, at)];
        i := i + 1;
        buffer := [];
        if cfg.resetsSize {
          currentPartSize := 0;
        }
      }
    } else {
      StepPartial(cfg, p, b, fails, done, tags, i);
    }
  }

  /**
   * The loop's variables after reading `p` without a failure: the buffer
   * holds the remainder, `i` is the next part number, `currentPartSize` the
   * value the source leaves in it and `tags` the tags of the uploads made.
   */
  predicate LoopState(cfg: Config, p: seq<byte>, done: seq<Call>, tags: seq<PartTag>, i: int, currentPartSize: int, buffer: seq<byte>)
    requires cfg.Valid()
  {
    && buffer == Rest(p, cfg.part)
    && i == |FullParts(p, cfg.part)| + 1
    && currentPartSize == LastPartSize(cfg, p)
    && tags == TagsOf(done, 1)
  }

  /** Reading the byte that fills the buffer uploads it as the next part. */
  lemma StepFull(cfg: Config, p: seq<byte>, b: byte, fails: Failures, done: seq<Call>, tags: seq<PartTag>, i: int)
    requires cfg.Valid()
    requires Loop(cfg, p, fails) == Exec(done, None)
    requires LoopState(cfg, p, done, tags, i, LastPartSize(cfg, p), Rest(p, cfg.part))
    requires |Rest(p, cfg.part)| + 1 == cfg.part
    ensures var call := UploadPart(i, Rest(p, cfg.part) + [b], cfg.part);
            var at := 1 + |done|;
            && Loop(cfg, p + [b], fails) == Exec(done + [call], if at in fails then Some(fails[at]) else None)
            && (at !in fails ==>
                  LoopState(cfg, p + [b], done + [call], tags + [PartTag(i, at)], i + 1,
                            if cfg.resetsSize then 0 else cfg.part, []))
  {
    var call := UploadPart(i, Rest(p, cfg.part) + [b], cfg.part);
    ChunksAppendByte(p, b, cfg.part);
    FullUploadsSnoc(FullParts(p, cfg.part), Rest(p, cfg.part) + [b], 1, cfg.part);
    RunSnoc(FullUploads(FullParts(p, cfg.part), 1, cfg.part), call, 1, fails);
    TagsOfAppend(done, [call], 1);
  }

  /** Reading a byte that does not fill the buffer only appends it there. */
  lemma StepPartial(cfg: Config, p: seq<byte>, b: byte, fails: Failures, done: seq<Call>, tags: seq<PartTag>, i: int)
    requires cfg.Valid()
    requires LoopState(cfg, p, done, tags, i, LastPartSize(cfg, p), Rest(p, cfg.part))
    requires |Rest(p, cfg.part)| + 1 != cfg.part
    ensures Loop(cfg, p + [b], fails) == Loop(cfg, p, fails)
    ensures LoopState(cfg, p + [b], done, tags, i, |Rest(p, cfg.part)| + 1, Rest(p, cfg.part) + [b])
  {
    ChunksAppendByte(p, b, cfg.part);
  }

  /** Once an upload of the loop failed, the bytes not yet read make no difference to the calls. */
  lemma StopsEarly(s: seq<byte>, pos: nat, part: nat, fails: Failures, stopped: bool)
    requires part > 0 && pos <= |s|
    requires stopped || pos == |s|
    requires stopped ==> Run(FullUploads(FullParts(s[..pos], part), 1, part), 1, fails).thrown.Some?
    ensures Run(FullUploads(FullParts(s, part), 1, part), 1, fails)
         == Run(FullUploads(FullParts(s[..pos], part), 1, part), 1, fails)
  {
    if stopped {
      var head := FullParts(s[..pos], part);
      var tail := FullParts(Rest(s[..pos], part) + s[pos..], part);
      ChunksOfPrefix(s, pos, part);
      FullUploadsAppend(head, tail, 1, part);
      RunAppendThrown(FullUploads(head, 1, part), FullUploads(tail, 1 + |head|, part), 1, fails);
    } else {
      assert s[..pos] == s;
    }
  }

  /**
   * The calls inside the `try` after the loop, the first at trace position
   * `at`: the abort and single put, the upload of the remainder as the last
   * part, or nothing. `tag` is the last part's tag when it is uploaded.
   */
  method CloseParts(cfg: Config, s: seq<byte>, at: nat, i: int, currentPartSize: int, buffer: seq<byte>, fails: Failures)
    returns (calls: seq<Call>, thrown: Option<Error>, tag: seq<PartTag>)
    requires cfg.Valid()
    requires buffer == Rest(s, cfg.part) && i == |FullParts(s, cfg.part)| + 1
    requires currentPartSize == LastPartSize(cfg, s)
    ensures Run(Closing(cfg, s), at, fails) == Exec(calls, thrown)
    ensures thrown.None? ==> tag == TagsOf(calls, at)
  {
    tag := [];
    if i == 1 && currentPartSize < cfg.min {
      calls := [Abort];
      if at in fails {
        thrown := Some(fails[at]);
      } else {
        calls := calls + [PutObject(buffer, currentPartSize)];
        thrown := if at + 1 in fails then Some(fails[at + 1]) else None;
        assert calls[1..] == [PutObject(buffer, currentPartSize)];
        assert TagsOf(calls[1..], at + 1) == [];
      }
    } else if currentPartSize > 0 && currentPartSize <= cfg.part {
      calls := [UploadPart(i, buffer, currentPartSize)];
      if at in fails {
        thrown := Some(fails[at]);
      } else {
        thrown := None;
        tag := [PartTag(i, at)];
      }
    } else {
      calls, thrown := [], None;
    }
  }

  /**
   * The `try` block of `put`: the read loop, then the stream's exception or
   * the closing calls. `singleShot` says whether the single put was made
   * and returned, and `tags` lists every uploaded part when nothing failed.
   */
  method Try(cfg: Config, o: S3Object, fails: Failures)
    returns (calls: seq<Call>, thrown: Option<Error>, tags: seq<PartTag>, singleShot: bool)
    requires cfg.Valid()
    ensures Body(cfg, o, fails) == Exec(calls, thrown)
    ensures thrown.None? ==> tags == TagsOf(calls, 1) && (singleShot <==> SingleShot(cfg, o.content))
  {
    var s := o.content;
    var done, i, currentPartSize, buffer;
    done, thrown, tags, i, currentPartSize, buffer := ReadParts(cfg, s, fails);
    var closing: seq<Call> := [];
    singleShot := i == 1 && currentPartSize < cfg.min;
    if thrown.None? && o.readError.Some? {
      thrown := o.readError;
    } else if thrown.None? {
      var tag;
      closing, thrown, tag := CloseParts(cfg, s, 1 + |done|, i, currentPartSize, buffer, fails);
      if thrown.None? {
        TagsOfAppend(done, closing, 1);
        tags := tags + tag;
      }
    }
    calls := done + closing;
  }

  /**
   * `put` as the source writes it: initiate outside the `try`, the `try`
   * block, the abort on its exceptions, and the completion after it.
   */
  method Put(cfg: Config, bucket: string, obj: Option<S3Object>, fails: Failures)
    returns (trace: seq<Call>, outcome: Outcome)
    requires cfg.Valid()
    ensures PutRun(trace, outcome) == PutSpec(cfg, bucket, obj, fails)
    ensures obj.None? ==> trace == [] && outcome == Threw(FileIsNull)
    ensures obj.Some? && 0 in fails ==> trace == [Initiate(bucket, obj.value.key)] && outcome == Threw(fails[0])
  {
    if obj.None? {
      return [], Threw(FileIsNull);
    }
    var o := obj.value;
    trace := [Initiate(bucket, o.key)];
    if 0 in fails {
      return trace, Threw(fails[0]);
    }
    var calls, thrown, tags, singleShot := Try(cfg, o, fails);
    trace := trace + calls;
    if thrown.Some? {
      var abortAt := |trace|;
      trace := trace + [Abort];
      if abortAt in fails {
        return trace, Threw(fails[abortAt]);
      }
      return trace, Threw(thrown.value);
    }
    if singleShot {
      return trace, Done;
    }
    var completeAt := |trace|;
    trace := trace + [Complete(tags)];
    if completeAt in fails {
      return trace, Threw(fails[completeAt]);
    }
    return trace, Done;
  }
}
