/** The part of OpenOCD's NOR-flash framework that the two XHSC drivers use:
    32-bit register transport to a target, the bank descriptor with its sector
    table, and the two building blocks both drivers share, an ordered list of
    register writes that stops at the first failure and a bounded status poll.

    The transport is abstracted as a log of accesses plus an environment that
    answers them: the reply to the read issued at log position `pos` is
    `env.reply(pos, addr)`, the return code of the write issued there is
    `env.ack(pos)`.  Every operation of the drivers is specified by a function
    of the environment and the starting position that yields the return code
    and the accesses issued (`Run`). */
module Flash {

  /** A 32-bit register address or register value. */
  type Word = x: int | 0 <= x < 0x1_0000_0000
  type Byte = x: int | 0 <= x < 0x100
  /** A failed transport call returns some OpenOCD error code other than ERROR_OK. */
  type ErrCode = c: int | c != 0 witness -4

  const WORD_MOD: int := 0x1_0000_0000

  // OpenOCD return codes used by the drivers (their values come from the framework headers)
  const ERROR_OK: int := 0
  const ERROR_FAIL: int := -4
  const ERROR_TARGET_NOT_HALTED: int := -304
  const ERROR_COMMAND_SYNTAX_ERROR: int := -601
  const ERROR_FLASH_DST_BREAKS_ALIGNMENT: int := -904

  datatype Option<T> = None | Some(value: T)

  /** One 32-bit transaction on the target's memory bus. */
  datatype Access = Read(addr: Word) | Write(addr: Word, value: Word)

  /** What a read returns: a value, or a transport error that is passed on. */
  datatype Reply = Value(v: Word) | Failed(code: ErrCode)

  /** The target's behaviour: the answer to each transaction, by its position in the log. */
  datatype Env = Env(reply: (nat, Word) -> Reply, ack: nat -> int)

  /** The outcome of a driver step: its return code and the accesses it issued, in order. */
  datatype Run = Run(code: int, acc: seq<Access>)

  /** Run `first`, and `next` (which starts where `first` ends) only if `first` succeeded. */
  function Join(first: Run, next: Run): Run
  {
    if first.code != ERROR_OK then first else Run(next.code, first.acc + next.acc)
  }

  /** `(v & bit) == bit` for a single-bit mask `bit`. */
  function BitSet(v: nat, bit: nat): bool
    requires bit > 0
  {
    (v / bit) % 2 == 1
  }

  /** uint32_t addition, which wraps around. */
  function Add32(a: nat, b: nat): Word
  {
    (a + b) % WORD_MOD
  }

  lemma Add32Assoc(a: nat, b: nat, c: nat)
    ensures Add32(Add32(a, b), c) == Add32(a, b + c)
  {
    var q := (a + b) / WORD_MOD;
    assert Add32(a, b) == a + b - q * WORD_MOD;
    assert (a + b + c - q * WORD_MOD) % WORD_MOD == (a + b + c) % WORD_MOD;
  }

  // ---------------------------------------------------------------------------
  // Little-endian word packing: buffer[i] | buffer[i+1] << 8 | ... (bytes are
  // disjoint bit fields, so | coincides with +)

  function Pow256(n: nat): (p: nat)
    ensures p > 0
  {
    if n == 0 then 1 else 0x100 * Pow256(n - 1)
  }

  /** The value with `bytes[0]` as its least significant byte. */
  function PackLE(bytes: seq<Byte>): (w: nat)
    ensures w < Pow256(|bytes|)
  {
    if bytes == [] then 0 else bytes[0] + 0x100 * PackLE(bytes[1..])
  }

  /** The `n` bytes of `w`, least significant first. */
  function UnpackLE(w: nat, n: nat): (bytes: seq<Byte>)
    ensures |bytes| == n
  {
    if n == 0 then [] else [w % 0x100] + UnpackLE(w / 0x100, n - 1)
  }

  /** The word a driver writes for the four bytes `b`:
      b[0] | b[1] << 8 | b[2] << 16 | b[3] << 24. */
  function Word4(b: seq<Byte>): Word
    requires |b| == 4
  {
    b[0] + b[1] as int * 0x100 + b[2] as int * 0x1_0000 + b[3] as int * 0x100_0000
  }

  /** The driver's byte shuffle is little-endian packing. */
  lemma Word4IsPackLE(b: seq<Byte>)
    requires |b| == 4
    ensures Word4(b) == PackLE(b)
  {
    var b1, b2, b3 := b[1..], b[2..], b[3..];
    assert b1[1..] == b2 && b2[1..] == b3 && b3[1..] == [];
    assert PackLE(b3) == b[3];
    assert PackLE(b2) == b[2] as int + 0x100 * (b[3] as int);
    assert PackLE(b1) == b[1] + 0x100 * PackLE(b2);
  }

  lemma {:induction false} UnpackPack(bytes: seq<Byte>)
    ensures UnpackLE(PackLE(bytes), |bytes|) == bytes
  {
    if bytes != [] {
      UnpackPack(bytes[1..]);
      var w := PackLE(bytes);
      assert w % 0x100 == bytes[0];
      assert w / 0x100 == PackLE(bytes[1..]);
    }
  }

  lemma {:induction false} PackUnpack(w: nat, n: nat)
    requires w < Pow256(n)
    ensures PackLE(UnpackLE(w, n)) == w
  {
    if n > 0 {
      PackUnpack(w / 0x100, n - 1);
      assert UnpackLE(w, n)[1..] == UnpackLE(w / 0x100, n - 1);
    }
  }

  /** Unpacking a written word gives back its four buffer bytes, and every
      word is the packing of its own four bytes. */
  lemma Word4RoundTrip(b: seq<Byte>, w: Word)
    requires |b| == 4
    ensures UnpackLE(Word4(b), 4) == b
    ensures Word4(UnpackLE(w, 4)) == w
  {
    Word4IsPackLE(b);
    Word4IsPackLE(UnpackLE(w, 4));
    UnpackPack(b);
    assert Pow256(4) == WORD_MOD;
    PackUnpack(w, 4);
  }

  // ---------------------------------------------------------------------------
  // Ordered write lists

  /** The write accesses of `ws`, in order. */
  function AsWrites(ws: seq<(Word, Word)>): (acc: seq<Access>)
    ensures |acc| == |ws|
    ensures forall j :: 0 <= j < |ws| ==> acc[j] == Write(ws[j].0, ws[j].1)
  {
    seq(|ws|, j requires 0 <= j < |ws| => Write(ws[j].0, ws[j].1))
  }

  /** One write of a list, issued at log position `p`. */
  function WriteRun(env: Env): (nat, (Word, Word)) -> Run
  {
    (p: nat, w: (Word, Word)) => Run(env.ack(p), [Write(w.0, w.1)])
  }

  /** Write each (address, value) of `ws` in order; the first failing write ends the list. */
  function Issue(env: Env, pos: nat, ws: seq<(Word, Word)>): Run
  {
    ExecFrom(WriteRun(env), pos, ws, 0)
  }

  /** The index of the first of `n` writes from `pos` that fails (`n` if none does). */
  function FirstNack(env: Env, pos: nat, n: nat): (k: nat)
    ensures k <= n
    decreases n
  {
    if n == 0 || env.ack(pos) != ERROR_OK then 0 else 1 + FirstNack(env, pos + 1, n - 1)
  }

  /** FirstNack is the first refused write: every write before it is accepted. */
  lemma {:induction false} FirstNackIsFirst(env: Env, pos: nat, n: nat)
    ensures forall p :: pos <= p < pos + FirstNack(env, pos, n) ==> env.ack(p) == ERROR_OK
    ensures FirstNack(env, pos, n) < n ==> env.ack(pos + FirstNack(env, pos, n)) != ERROR_OK
    decreases n
  {
    if n > 0 && env.ack(pos) == ERROR_OK {
      FirstNackIsFirst(env, pos + 1, n - 1);
    }
  }

  lemma {:induction false} IssueFromAccepted(env: Env, pos: nat, ws: seq<(Word, Word)>, i: nat)
    requires i <= |ws|
    requires forall p :: pos <= p < pos + (|ws| - i) ==> env.ack(p) == ERROR_OK
    ensures ExecFrom(WriteRun(env), pos, ws, i) == Run(ERROR_OK, AsWrites(ws)[i..])
    decreases |ws| - i
  {
    if i < |ws| {
      IssueFromAccepted(env, pos + 1, ws, i + 1);
      assert AsWrites(ws)[i..] == [Write(ws[i].0, ws[i].1)] + AsWrites(ws)[i + 1..];
    }
  }

  /** When the target accepts every write, the whole list is written and the result is ERROR_OK. */
  lemma IssueAllAccepted(env: Env, pos: nat, ws: seq<(Word, Word)>)
    requires forall p :: pos <= p < pos + |ws| ==> env.ack(p) == ERROR_OK
    ensures Issue(env, pos, ws) == Run(ERROR_OK, AsWrites(ws))
  {
    IssueFromAccepted(env, pos, ws, 0);
    assert AsWrites(ws)[0..] == AsWrites(ws);
  }

  lemma {:induction false} IssueFromFailure(env: Env, pos: nat, ws: seq<(Word, Word)>, i: nat)
    requires i <= |ws| && FirstNack(env, pos, |ws| - i) < |ws| - i
    ensures var k := FirstNack(env, pos, |ws| - i);
            ExecFrom(WriteRun(env), pos, ws, i) == Run(env.ack(pos + k), AsWrites(ws)[i..i + k + 1])
    decreases |ws| - i
  {
    var sem := WriteRun(env);
    var k := FirstNack(env, pos, |ws| - i);
    var head := [Write(ws[i].0, ws[i].1)];
    SliceHead(AsWrites(ws), i, i + k + 1);
    assert sem(pos, ws[i]) == Run(env.ack(pos), head);
    if env.ack(pos) == ERROR_OK {
      var k' := FirstNack(env, pos + 1, |ws| - (i + 1));
      assert k == k' + 1;
      IssueFromFailure(env, pos + 1, ws, i + 1);
      var q := ExecFrom(sem, pos + 1, ws, i + 1);
      assert q == Run(env.ack(pos + k), AsWrites(ws)[i + 1..i + k + 1]);
      assert ExecFrom(sem, pos, ws, i) == Run(q.code, head + q.acc);
    } else {
      assert k == 0;
      assert AsWrites(ws)[i + 1..i + k + 1] == [];
    }
  }

  lemma SliceHead<T>(s: seq<T>, i: nat, j: nat)
    requires i < j <= |s|
    ensures s[i..j] == [s[i]] + s[i + 1..j]
  {
  }

  /** When some write fails, the list has issued the writes up to and including
      the first failing one, and returns that write's code. */
  lemma IssueStopsAtFirstFailure(env: Env, pos: nat, ws: seq<(Word, Word)>)
    requires FirstNack(env, pos, |ws|) < |ws|
    ensures Issue(env, pos, ws) ==
            Run(env.ack(pos + FirstNack(env, pos, |ws|)), AsWrites(ws)[..FirstNack(env, pos, |ws|) + 1])
  {
    var k := FirstNack(env, pos, |ws|);
    assert FirstNack(env, pos, |ws| - 0) == k;
    IssueFromFailure(env, pos, ws, 0);
    assert AsWrites(ws)[0..k + 1] == AsWrites(ws)[..k + 1];
    assert ExecFrom(WriteRun(env), pos, ws, 0) == Run(env.ack(pos + k), AsWrites(ws)[..k + 1]);
  }

  // ---------------------------------------------------------------------------
  // Bounded status poll

  function Max0(t: int): nat
  {
    if t > 0 then t else 0
  }

  /** A status read that returned a value without the awaited bit. */
  predicate Idle(rep: Reply, bit: nat)
    requires bit > 0
  {
    rep.Value? && !BitSet(rep.v, bit)
  }

  /** A status read that returned a value with the awaited bit. */
  predicate Ready(rep: Reply, bit: nat)
    requires bit > 0
  {
    rep.Value? && BitSet(rep.v, bit)
  }

  /** The outcome of a poll: its return code and how many status reads it made. */
  datatype Polled = Polled(code: int, count: nat)

  /** `n` reads of `reg`. */
  function Reads(reg: Word, n: nat): (acc: seq<Access>)
    ensures |acc| == n && forall j :: 0 <= j < n ==> acc[j] == Read(reg)
  {
    seq(n, _ => Read(reg))
  }

  /** Read `reg` until `bit` is set, a read fails, or the countdown `timeout` is used up. */
  function Polls(env: Env, pos: nat, reg: Word, bit: nat, timeout: int): Polled
    requires bit > 0
    decreases Max0(timeout)
  {
    match env.reply(pos, reg)
    case Failed(c) => Polled(c, 1)
    case Value(v) =>
      if BitSet(v, bit) then Polled(ERROR_OK, 1)
      else if timeout <= 0 then Polled(ERROR_FAIL, 1)
      else var q := Polls(env, pos + 1, reg, bit, timeout - 1); Polled(q.code, q.count + 1)
  }

  /** The accesses and return code of a poll. */
  function Poll(env: Env, pos: nat, reg: Word, bit: nat, timeout: int): Run
    requires bit > 0
  {
    var q := Polls(env, pos, reg, bit, timeout);
    Run(q.code, Reads(reg, q.count))
  }

  /** The poll reads `reg` at least once and at most timeout+1 times; every
      read but the last was idle; it succeeds exactly when the last read had
      the bit, passes a failed read's code on, and fails with ERROR_FAIL after
      exactly timeout+1 idle reads. */
  lemma {:induction false} PollShape(env: Env, pos: nat, reg: Word, bit: nat, timeout: int)
    requires bit > 0
    ensures var q := Polls(env, pos, reg, bit, timeout);
            var n := q.count;
            && 1 <= n <= Max0(timeout) + 1
            && (forall p :: pos <= p < pos + n - 1 ==> Idle(env.reply(p, reg), bit))
            && (q.code == ERROR_OK <==> Ready(env.reply(pos + n - 1, reg), bit))
            && (env.reply(pos + n - 1, reg).Failed? ==> q.code == env.reply(pos + n - 1, reg).code)
            && (Idle(env.reply(pos + n - 1, reg), bit) ==> q.code == ERROR_FAIL && n == Max0(timeout) + 1)
    decreases Max0(timeout)
  {
    var rep := env.reply(pos, reg);
    if rep.Value? && !BitSet(rep.v, bit) && timeout > 0 {
      PollShape(env, pos + 1, reg, bit, timeout - 1);
    }
  }

  /** If the bit first shows on read k (k <= timeout), the poll succeeds after exactly k+1 reads. */
  lemma PollReadyAt(env: Env, pos: nat, reg: Word, bit: nat, timeout: int, k: nat)
    requires bit > 0 && k <= Max0(timeout)
    requires forall p :: pos <= p < pos + k ==> Idle(env.reply(p, reg), bit)
    requires Ready(env.reply(pos + k, reg), bit)
    ensures Poll(env, pos, reg, bit, timeout) == Run(ERROR_OK, Reads(reg, k + 1))
  {
    PollShape(env, pos, reg, bit, timeout);
  }

  /** If the bit never shows, the poll fails with ERROR_FAIL after exactly timeout+1 reads. */
  lemma PollTimesOut(env: Env, pos: nat, reg: Word, bit: nat, timeout: int)
    requires bit > 0
    requires forall p :: pos <= p <= pos + Max0(timeout) ==> Idle(env.reply(p, reg), bit)
    ensures Poll(env, pos, reg, bit, timeout) == Run(ERROR_FAIL, Reads(reg, Max0(timeout) + 1))
  {
    PollShape(env, pos, reg, bit, timeout);
    var q := Polls(env, pos, reg, bit, timeout);
    assert Idle(env.reply(pos + q.count - 1, reg), bit);
  }

  // ---------------------------------------------------------------------------
  // Statement lists: `retval = <statement>; if (retval != ERROR_OK) return retval;`

  /** Run steps[i..] from log position `pos`, statement `s` at position `p`
      meaning `sem(p, s)`, stopping at the first statement that fails. */
  function ExecFrom<S>(sem: (nat, S) -> Run, pos: nat, steps: seq<S>, i: nat): Run
    decreases |steps| - i
  {
    if i >= |steps| then Run(ERROR_OK, [])
    else
      var r := sem(pos, steps[i]);
      if r.code != ERROR_OK then r
      else var q := ExecFrom(sem, pos + |r.acc|, steps, i + 1); Run(q.code, r.acc + q.acc)
  }

  /** After the statements before steps[k] have run and logged `done`, the
      rest of the list accounts for everything still to come. */
  ghost predicate ExecResumes<S>(sem: (nat, S) -> Run, p0: nat, steps: seq<S>, done: seq<Access>, k: nat)
  {
    var q := ExecFrom(sem, p0 + |done|, steps, k);
    ExecFrom(sem, p0, steps, 0) == Run(q.code, done + q.acc)
  }

  lemma ExecStep<S>(sem: (nat, S) -> Run, p0: nat, steps: seq<S>, done: seq<Access>, k: nat)
    requires k < |steps| && ExecResumes(sem, p0, steps, done, k)
    ensures var r := sem(p0 + |done|, steps[k]);
            r.code != ERROR_OK ==> ExecFrom(sem, p0, steps, 0) == Run(r.code, done + r.acc)
    ensures var r := sem(p0 + |done|, steps[k]);
            r.code == ERROR_OK ==> ExecResumes(sem, p0, steps, done + r.acc, k + 1)
  {
    var r := sem(p0 + |done|, steps[k]);
    var q := ExecFrom(sem, p0 + |done| + |r.acc|, steps, k + 1);
    AppendAssoc(done, r.acc, q.acc);
  }

  lemma ExecEnd<S>(sem: (nat, S) -> Run, p0: nat, steps: seq<S>, done: seq<Access>)
    requires ExecResumes(sem, p0, steps, done, |steps|)
    ensures ExecFrom(sem, p0, steps, 0) == Run(ERROR_OK, done)
  {
    assert done + [] == done;
  }

  /** Running b's part of a + b is running b. */
  lemma {:induction false} ExecFromShift<S>(sem: (nat, S) -> Run, pos: nat, a: seq<S>, b: seq<S>, j: nat)
    requires j <= |b|
    ensures ExecFrom(sem, pos, a + b, |a| + j) == ExecFrom(sem, pos, b, j)
    decreases |b| - j
  {
    if j < |b| {
      assert (a + b)[|a| + j] == b[j];
      var r := sem(pos, b[j]);
      if r.code == ERROR_OK {
        ExecFromShift(sem, pos + |r.acc|, a, b, j + 1);
      }
    }
  }

  /** Running a + b is running a and, if that succeeded, b after it. */
  lemma {:induction false} ExecFromAppend<S>(sem: (nat, S) -> Run, pos: nat, a: seq<S>, b: seq<S>, i: nat)
    requires i <= |a|
    ensures var ra := ExecFrom(sem, pos, a, i);
            var rb := ExecFrom(sem, pos + |ra.acc|, b, 0);
            ExecFrom(sem, pos, a + b, i) == if ra.code != ERROR_OK then ra else Run(rb.code, ra.acc + rb.acc)
    decreases |a| - i
  {
    if i == |a| {
      ExecFromShift(sem, pos, a, b, 0);
      assert [] + ExecFrom(sem, pos, b, 0).acc == ExecFrom(sem, pos, b, 0).acc;
    } else {
      assert (a + b)[i] == a[i];
      var r := sem(pos, a[i]);
      if r.code == ERROR_OK {
        ExecFromAppend(sem, pos + |r.acc|, a, b, i + 1);
        var q := ExecFrom(sem, pos + |r.acc|, a, i + 1);
        if q.code == ERROR_OK {
          AppendAssoc(r.acc, q.acc, ExecFrom(sem, pos + |r.acc| + |q.acc|, b, 0).acc);
        }
      }
    }
  }

  /** Running a + b from its start. */
  lemma ExecAppend<S>(sem: (nat, S) -> Run, pos: nat, a: seq<S>, b: seq<S>)
    ensures var ra := ExecFrom(sem, pos, a, 0);
            var rb := ExecFrom(sem, pos + |ra.acc|, b, 0);
            ExecFrom(sem, pos, a + b, 0) == if ra.code != ERROR_OK then ra else Run(rb.code, ra.acc + rb.acc)
  {
    ExecFromAppend(sem, pos, a, b, 0);
  }

  lemma AppendAssoc<T>(a: seq<T>, b: seq<T>, c: seq<T>)
    ensures (a + b) + c == a + (b + c)
  {
  }

  /** The outcome of a driver loop: the run, and how many iterations completed. */
  datatype Progress = Progress(run: Run, done: nat)

  /** A driver loop over items[i..end): the iteration for item `x` starting
      at log position `p` means `body(p, x)`; the first failing iteration ends
      the loop.  All remaining iterations complete exactly when the loop succeeds. */
  function Iterate<B>(body: (nat, B) -> Run, pos: nat, items: seq<B>, i: nat, end: nat): (p: Progress)
    requires i <= end && (i < end ==> end <= |items|)
    ensures p.done <= end - i
    ensures p.run.code == ERROR_OK <==> p.done == end - i
    decreases end - i
  {
    if i == end then Progress(Run(ERROR_OK, []), 0)
    else
      var r := body(pos, items[i]);
      if r.code != ERROR_OK then Progress(r, 0)
      else
        var q := Iterate(body, pos + |r.acc|, items, i + 1, end);
        Progress(Run(q.run.code, r.acc + q.run.acc), q.done + 1)
  }

  /** The end of a sector loop `for (i = first; i <= last; i++)`: the loop
      runs over sectors first .. SectorEnd(first, last) - 1. */
  function SectorEnd(first: nat, last: nat): (e: nat)
    ensures first <= e && (first <= last <==> first < e)
    ensures first <= last ==> e == last + 1
  {
    if first <= last then last + 1 else first
  }

  /** The invariant of a driver loop over items[start..end) started at log
      position p0: `done` is what the loop issued before item k, and the loop
      as a whole is `done` followed by the loop over the rest. */
  ghost predicate Resumes<B>(body: (nat, B) -> Run, p0: nat, items: seq<B>, start: nat, end: nat,
                             done: seq<Access>, k: nat)
    requires start <= k <= end && (start < end ==> end <= |items|)
  {
    var q := Iterate(body, p0 + |done|, items, k, end);
    Iterate(body, p0, items, start, end) == Progress(Run(q.run.code, done + q.run.acc), q.done + (k - start))
  }

  /** After item k's iteration the loop has either ended there, or `done`
      has grown by that iteration's accesses and k by one. */
  lemma IterateStep<B>(body: (nat, B) -> Run, p0: nat, items: seq<B>, start: nat, end: nat,
                       done: seq<Access>, k: nat)
    requires start <= k < end <= |items| && Resumes(body, p0, items, start, end, done, k)
    ensures var r := body(p0 + |done|, items[k]);
            r.code != ERROR_OK ==>
              Iterate(body, p0, items, start, end) == Progress(Run(r.code, done + r.acc), k - start)
    ensures var r := body(p0 + |done|, items[k]);
            r.code == ERROR_OK ==> Resumes(body, p0, items, start, end, done + r.acc, k + 1)
  {
    var r := body(p0 + |done|, items[k]);
    var q := Iterate(body, p0 + |done| + |r.acc|, items, k + 1, end);
    assert done + (r.acc + q.run.acc) == (done + r.acc) + q.run.acc;
  }

  /** The loop after its last item: `done` is all it issued. */
  lemma IterateEnd<B>(body: (nat, B) -> Run, p0: nat, items: seq<B>, start: nat, end: nat, done: seq<Access>)
    requires start <= end && (start < end ==> end <= |items|)
    requires Resumes(body, p0, items, start, end, done, end)
    ensures Iterate(body, p0, items, start, end) == Progress(Run(ERROR_OK, done), end - start)
  {
    assert done + [] == done;
  }

  /** A loop whose every iteration succeeds, wherever in the log it starts, completes all of them. */
  lemma {:induction false} IterateAllSucceed<B>(body: (nat, B) -> Run, pos: nat, items: seq<B>, i: nat, end: nat)
    requires i <= end <= |items|
    requires forall p: nat, k :: i <= k < end ==> body(p, items[k]).code == ERROR_OK
    ensures Iterate(body, pos, items, i, end).run.code == ERROR_OK
    ensures Iterate(body, pos, items, i, end).done == end - i
    decreases end - i
  {
    if i < end {
      IterateAllSucceed(body, pos + |body(pos, items[i]).acc|, items, i + 1, end);
    }
  }

  /** A counted driver loop over iterations k .. n-1: iteration k started at
      log position `p` means `body(p, k)`; the first failing iteration ends
      the loop. */
  function Repeat(body: (nat, nat) -> Run, pos: nat, k: nat, n: nat): (p: Progress)
    ensures p.done <= (if k < n then n - k else 0)
    ensures p.run.code == ERROR_OK <==> p.done == (if k < n then n - k else 0)
    decreases n - k
  {
    if k >= n then Progress(Run(ERROR_OK, []), 0)
    else
      var r := body(pos, k);
      if r.code != ERROR_OK then Progress(r, 0)
      else
        var q := Repeat(body, pos + |r.acc|, k + 1, n);
        Progress(Run(q.run.code, r.acc + q.run.acc), q.done + 1)
  }

  /** A counted loop whose every iteration succeeds completes all of them. */
  lemma {:induction false} RepeatAllSucceed(body: (nat, nat) -> Run, pos: nat, k: nat, n: nat)
    requires forall p: nat, j :: k <= j < n ==> body(p, j).code == ERROR_OK
    ensures Repeat(body, pos, k, n).run.code == ERROR_OK
    ensures Repeat(body, pos, k, n).done == (if k < n then n - k else 0)
    decreases n - k
  {
    if k < n {
      RepeatAllSucceed(body, pos + |body(pos, k).acc|, k + 1, n);
    }
  }

  /** The invariant of a counted loop started at log position p0: `done` is
      what iterations 0 .. k-1 issued, and the loop as a whole is `done`
      followed by the rest. */
  ghost predicate RepeatResumes(body: (nat, nat) -> Run, p0: nat, n: nat, done: seq<Access>, k: nat)
  {
    var q := Repeat(body, p0 + |done|, k, n);
    Repeat(body, p0, 0, n) == Progress(Run(q.run.code, done + q.run.acc), q.done + k)
  }

  lemma RepeatStep(body: (nat, nat) -> Run, p0: nat, n: nat, done: seq<Access>, k: nat)
    requires k < n && RepeatResumes(body, p0, n, done, k)
    ensures var r := body(p0 + |done|, k);
            r.code != ERROR_OK ==> Repeat(body, p0, 0, n) == Progress(Run(r.code, done + r.acc), k)
    ensures var r := body(p0 + |done|, k);
            r.code == ERROR_OK ==> RepeatResumes(body, p0, n, done + r.acc, k + 1)
  {
    var r := body(p0 + |done|, k);
    var q := Repeat(body, p0 + |done| + |r.acc|, k + 1, n);
    AppendAssoc(done, r.acc, q.run.acc);
  }

  lemma RepeatEnd(body: (nat, nat) -> Run, p0: nat, n: nat, done: seq<Access>)
    requires RepeatResumes(body, p0, n, done, n)
    ensures Repeat(body, p0, 0, n) == Progress(Run(ERROR_OK, done), n)
  {
    assert done + [] == done;
  }

  // ---------------------------------------------------------------------------
  // The framework's objects

  /** struct flash_sector's is_erased: 1, 0 or -1. */
  datatype Tristate = Erased | NotErased | Unknown

  datatype Sector = Sector(offset: nat, size: nat, isErased: Tristate, isProtected: bool)

  /** The debug target as the drivers see it: halted or not, and the register transport. */
  class Target {
    var halted: bool
    var log: seq<Access>
    const env: Env

    constructor (halted: bool, env: Env)
      ensures this.halted == halted && this.env == env && log == []
    {
      this.halted := halted;
      this.env := env;
      log := [];
    }

    /** target_write_u32 */
    method WriteU32(addr: Word, value: Word) returns (r: int)
      modifies this`log
      ensures log == old(log) + [Write(addr, value)]
      ensures r == env.ack(|old(log)|)
    {
      r := env.ack(|log|);
      log := log + [Write(addr, value)];
    }

    /** target_read_u32 */
    method ReadU32(addr: Word) returns (r: int, v: Word)
      modifies this`log
      ensures log == old(log) + [Read(addr)]
      ensures env.reply(|old(log)|, addr).Value? ==> r == ERROR_OK && v == env.reply(|old(log)|, addr).v
      ensures env.reply(|old(log)|, addr).Failed? ==> r == env.reply(|old(log)|, addr).code
    {
      match env.reply(|log|, addr) {
        case Value(x) => r, v := ERROR_OK, x;
        case Failed(c) => r, v := c, 0;
      }
      log := log + [Read(addr)];
    }
  }

  /** struct flash_bank: num_sectors is sectors.Length. */
  class Bank {
    const target: Target
    var base: Word
    var size: nat
    var bankNumber: int
    var sectors: array<Sector>

    constructor (target: Target, bankNumber: int, base: Word)
      ensures this.target == target && this.bankNumber == bankNumber && this.base == base
      ensures size == 0 && sectors.Length == 0 && fresh(sectors)
    {
      this.target := target;
      this.bankNumber := bankNumber;
      this.base := base;
      size := 0;
      sectors := new Sector[0];
    }

    /** What both probes do with the sector table: free it, allocate `count`
        sectors and give sector i offset i*sectorSize, unknown erase state and
        no protection. */
    method ResetSectors(count: nat, sectorSize: nat)
      modifies this`sectors
      ensures fresh(sectors) && sectors.Length == count
      ensures forall i :: 0 <= i < count ==>
                sectors[i] == Sector(i * sectorSize, sectorSize, Unknown, false)
    {
      var a := new Sector[count];
      for i := 0 to count
        invariant forall j :: 0 <= j < i ==> a[j] == Sector(j * sectorSize, sectorSize, Unknown, false)
      {
        a[i] := Sector(i * sectorSize, sectorSize, Unknown, false);
      }
      sectors := a;
    }

    /** The mass-erase commands' "set all sectors as erased" loop. */
    method MarkAllErased()
      modifies sectors
      ensures forall i :: 0 <= i < sectors.Length ==>
                sectors[i] == old(sectors[i]).(isErased := Erased)
    {
      for i := 0 to sectors.Length
        invariant forall j :: 0 <= j < i ==> sectors[j] == old(sectors[j]).(isErased := Erased)
        invariant forall j :: i <= j < sectors.Length ==> sectors[j] == old(sectors[j])
      {
        sectors[i] := sectors[i].(isErased := Erased);
      }
    }
  }

  /** The sector offsets of a sector table. */
  function Offsets(s: seq<Sector>): (o: seq<nat>)
    ensures |o| == |s| && forall i :: 0 <= i < |s| ==> o[i] == s[i].offset
  {
    seq(|s|, i requires 0 <= i < |s| => s[i].offset)
  }

  /** The sector table after sectors first .. first+n-1 were marked erased. */
  function MarkErased(s: seq<Sector>, first: nat, n: nat): (m: seq<Sector>)
    ensures |m| == |s|
    ensures forall i :: 0 <= i < |s| ==>
              m[i] == if first <= i < first + n then s[i].(isErased := Erased) else s[i]
  {
    seq(|s|, i requires 0 <= i < |s| =>
      if first <= i < first + n then s[i].(isErased := Erased) else s[i])
  }

  /** Marking sectors erased leaves their offsets as they were. */
  lemma MarkedOffsets(s: seq<Sector>, m: seq<Sector>, first: nat, n: nat)
    requires |m| == |s|
    requires forall j :: 0 <= j < |s| ==> m[j] == if first <= j < first + n then s[j].(isErased := Erased) else s[j]
    ensures Offsets(m) == Offsets(s)
  {
  }

  // ---------------------------------------------------------------------------
  // The two shared building blocks, as methods on the target

  /** Issue the writes of `ws` in order, stopping at the first failure. */
  method IssueWrites(t: Target, ws: seq<(Word, Word)>) returns (r: int)
    modifies t`log
    ensures t.log == old(t.log) + Issue(t.env, |old(t.log)|, ws).acc
    ensures r == Issue(t.env, |old(t.log)|, ws).code
  {
    ghost var sem := WriteRun(t.env);
    ghost var p0 := |t.log|;
    ghost var done: seq<Access> := [];
    assert done + [] == done;
    var i := 0;
    while i < |ws|
      invariant 0 <= i <= |ws|
      invariant t.log == old(t.log) + done
      invariant ExecResumes(sem, p0, ws, done, i)
    {
      ExecStep(sem, p0, ws, done, i);
      r := t.WriteU32(ws[i].0, ws[i].1);
      AppendAssoc(old(t.log), done, [Write(ws[i].0, ws[i].1)]);
      if r != ERROR_OK {
        return;
      }
      done := done + [Write(ws[i].0, ws[i].1)];
      i := i + 1;
    }
    ExecEnd(sem, p0, ws, done);
    r := ERROR_OK;
  }

  /** The wait_status loops: read `reg` until `bit` is set; ERROR_FAIL once the
      countdown `timeout` runs out; a failed read is passed on.  One loop
      iteration is one read (the real-time delay between reads is not modelled). */
  method WaitFor(t: Target, reg: Word, bit: nat, timeout: int) returns (r: int)
    requires bit > 0
    modifies t`log
    ensures t.log == old(t.log) + Poll(t.env, |old(t.log)|, reg, bit, timeout).acc
    ensures r == Poll(t.env, |old(t.log)|, reg, bit, timeout).code
  {
    ghost var p0 := |t.log|;
    ghost var n: nat := 0;
    var left := timeout;
    while true
      invariant t.log == old(t.log) + Reads(reg, n)
      invariant var q := Polls(t.env, p0 + n, reg, bit, left);
                Polls(t.env, p0, reg, bit, timeout) == Polled(q.code, q.count + n)
      decreases Max0(left)
    {
      var c, status := t.ReadU32(reg);
      assert Reads(reg, n) + [Read(reg)] == Reads(reg, n + 1);
      if c != ERROR_OK {
        return c;
      }
      if BitSet(status, bit) {
        return ERROR_OK;
      }
      if left <= 0 {
        return ERROR_FAIL;
      }
      n := n + 1;
      left := left - 1;
    }
  }
}
