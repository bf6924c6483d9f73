/** The byte-stream semantics of device_file_read and device_file_write, on
    values: the shadow buffer, the hardware window, the cursor and the
    caller's arguments go in; the value returned to user space, the new cursor,
    the new buffer and the new window come out.

    User memory is reduced to what decides a fault: for a read, `room` is the
    number of bytes at user_buffer that can be written; for a write, `user` is
    the readable prefix of the bytes at user_buffer. `interrupted` stands for
    mutex_lock_killable giving up, `dryRun` for a build with DRY_RUN defined. */
module FileOps {
  import opened WordTransfer

  /** Linux error numbers, as in the kernel's errno-base.h. */
  const EINTR: int := 4
  const ENOMEM: int := 12
  const EFAULT: int := 14
  const ENODEV: int := 19
  const EINVAL: int := 22

  /** The byte count a handler transfers when the cursor is inside the buffer:
      the request, cut down to what is left of the buffer. */
  function Clamp(size: nat, pos: nat, count: nat): (c: nat)
    requires pos < size
    ensures c <= count && pos + c <= size
    ensures c == count || pos + c == size
  {
    if pos + count > size then size - pos else count
  }

  /** n zero bytes, as kzalloc and a faulting copy_from_user leave them. */
  function Zeros(n: nat): (z: seq<bv8>)
    ensures |z| == n && forall k :: 0 <= k < n ==> z[k] == 0
  {
    seq(n, _ => 0)
  }

  /** The window holds every whole word of a buffer of `size` bytes. This is
      an assumption: each buffer is VPMU_DEVICE_IOMEM_SIZE bytes long
      (device_file.c:208), but the mapping behind vpmu_base is set up
      elsewhere. */
  predicate Covers(win: seq<Word>, size: nat)
  {
    WordCount(size) <= |win|
  }

  /** A transfer of c <= size bytes reads or writes only window words that exist. */
  lemma WordsFit(win: seq<Word>, size: nat, c: nat)
    requires Covers(win, size) && c <= size
    ensures WordCount(c) <= |win|
  {
    assert c / W <= size / W;
  }

  datatype ReadOutcome = ReadOutcome(ret: int, pos: nat, buffer: seq<bv8>, out: seq<bv8>)

  /** device_file_read: lock, EOF check, clamp, refresh the clamped range of
      the buffer from the window base (unless DRY_RUN), copy it to the user,
      advance the cursor. */
  function ReadStep(buf: seq<bv8>, win: seq<Word>, pos: nat, count: nat, room: nat,
                    interrupted: bool, dryRun: bool): (r: ReadOutcome)
    requires Covers(win, |buf|)
    ensures |r.buffer| == |buf|
    ensures pos <= |buf| ==> r.pos <= |buf|
    ensures r.ret == -EINTR <==> interrupted
    ensures r.ret == 0 <==> !interrupted && (pos >= |buf| || count == 0)
    ensures r.ret == -EFAULT <==> !interrupted && pos < |buf| && room < Clamp(|buf|, pos, count)
    ensures r.ret < 0 ==> r.pos == pos
    ensures !interrupted && pos < |buf| && Clamp(|buf|, pos, count) <= room ==>
              r.ret == Clamp(|buf|, pos, count)
    ensures r.ret > 0 ==> r.ret == Clamp(|buf|, pos, count) && r.pos == pos + r.ret
                          && r.out == r.buffer[pos..r.pos]
    ensures r.ret == -EFAULT ==> r.out == r.buffer[pos..pos + room]
    ensures r.ret <= 0 && r.ret != -EFAULT ==> r.out == [] && r.pos == pos
    ensures interrupted || pos >= |buf| || dryRun ==> r.buffer == buf
  {
    if interrupted then ReadOutcome(-EINTR, pos, buf, [])
    else if pos >= |buf| then ReadOutcome(0, pos, buf, [])
    else
      var c := Clamp(|buf|, pos, count);
      WordsFit(win, |buf|, c);
      var refreshed := if dryRun then buf else Fill(buf, pos, win, WordCount(c));
      if room < c then ReadOutcome(-EFAULT, pos, refreshed, refreshed[pos..pos + room])
      else ReadOutcome(c, pos + c, refreshed, refreshed[pos..pos + c])
  }

  /** Outside DRY_RUN a read refreshes the buffer from window word 0 on,
      whatever the cursor: word i of the window lands at byte pos + i*W, the
      clamped count's partial last word is not refreshed, and the rest of the
      buffer keeps its bytes. */
  lemma ReadRefreshesFromWindowBase(buf: seq<bv8>, win: seq<Word>, pos: nat, count: nat, room: nat)
    requires Covers(win, |buf|) && pos < |buf|
    ensures var n := WordCount(Clamp(|buf|, pos, count));
            var r := ReadStep(buf, win, pos, count, room, false, false);
            forall j :: 0 <= j < |buf| ==>
              r.buffer[j] == if pos <= j < pos + n * W then win[(j - pos) / W][(j - pos) % W] else buf[j]
  {
    var c := Clamp(|buf|, pos, count);
    var n := WordCount(c);
    WordsFit(win, |buf|, c);
    var r := ReadStep(buf, win, pos, count, room, false, false);
    assert r.buffer == Fill(buf, pos, win, n);
    FillEverywhere(buf, pos, win, n);
  }

  /** Outside DRY_RUN a successful read hands the user window words 0 .. as
      far as the clamped count holds whole words, followed by the buffer's old
      bytes for the partial last word. */
  lemma ReadReturnsWindowWords(buf: seq<bv8>, win: seq<Word>, pos: nat, count: nat, room: nat)
    requires Covers(win, |buf|) && pos < |buf| && Clamp(|buf|, pos, count) <= room
    ensures var n := WordCount(Clamp(|buf|, pos, count));
            var r := ReadStep(buf, win, pos, count, room, false, false);
            |r.out| == Clamp(|buf|, pos, count)
            && forall k :: 0 <= k < |r.out| ==> r.out[k] == if k < n * W then win[k / W][k % W] else buf[pos + k]
  {
    var c := Clamp(|buf|, pos, count);
    var n := WordCount(c);
    var r := ReadStep(buf, win, pos, count, room, false, false);
    ReadRefreshesFromWindowBase(buf, win, pos, count, room);
    forall k | 0 <= k < |r.out|
      ensures r.out[k] == if k < n * W then win[k / W][k % W] else buf[pos + k]
    {
      assert r.out[k] == r.buffer[pos + k];
    }
  }

  datatype WriteOutcome = WriteOutcome(ret: int, status: int, pos: nat, buffer: seq<bv8>, window: seq<Word>)

  /** device_file_write: lock, reject a cursor at or past the end, clamp, copy
      the user bytes into the buffer, advance the cursor, push the written
      words to the window base (unless DRY_RUN).

      `ret` is what the handler returns: `count` on every path past the lock
      (device_file.c:140). `status` is what it would return if :140 were
      `return retval`: -EINVAL or -EFAULT as retval is set at :120 and :127,
      the bytes written as at :132, and -EINTR on the interrupted path, which
      :110 returns directly (retval itself is still 0 there).

      The push takes the words from the cursor as it was BEFORE the advance;
      the source passes the advanced cursor, see AsWrittenPushOverruns. */
  function WriteStep(buf: seq<bv8>, win: seq<Word>, pos: nat, count: nat, user: seq<bv8>,
                     interrupted: bool, dryRun: bool): (r: WriteOutcome)
    requires Covers(win, |buf|)
    ensures |r.buffer| == |buf| && |r.window| == |win|
    ensures pos <= |buf| ==> r.pos <= |buf|
    ensures r.ret == -EINTR <==> interrupted
    ensures !interrupted ==> r.ret >= 0
    ensures r.status == -EINTR <==> interrupted
    ensures r.status == -EINVAL <==> !interrupted && pos >= |buf|
    ensures r.status == -EFAULT <==> !interrupted && pos < |buf| && |user| < Clamp(|buf|, pos, count)
    ensures r.status == -EINVAL ==> r.ret == count
    ensures r.status < 0 ==> r.pos == pos && r.window == win
    ensures r.status == -EINTR || r.status == -EINVAL ==> r.buffer == buf
    ensures r.status >= 0 ==> r.ret == r.status == Clamp(|buf|, pos, count) && r.pos == pos + r.ret
                              && r.buffer[pos..r.pos] == user[..r.ret]
    ensures r.status == -EFAULT ==>
              r.ret == Clamp(|buf|, pos, count) && r.buffer[pos..pos + r.ret] == user + Zeros(r.ret - |user|)
    ensures r.status >= 0 || r.status == -EFAULT ==>
              forall j :: 0 <= j < |buf| && !(pos <= j < pos + r.ret) ==> r.buffer[j] == buf[j]
    ensures dryRun ==> r.window == win
  {
    if interrupted then WriteOutcome(-EINTR, -EINTR, pos, buf, win)
    else if pos >= |buf| then WriteOutcome(count, -EINVAL, pos, buf, win)
    else
      var c := Clamp(|buf|, pos, count);
      if |user| < c then
        WriteOutcome(c, -EFAULT, pos, Splice(buf, pos, user + Zeros(c - |user|)), win)
      else
        var written := Splice(buf, pos, user[..c]);
        WordsFit(win, |buf|, c);
        var pushed := if dryRun then win else Store(win, written, pos, WordCount(c));
        WriteOutcome(c, c, pos + c, written, pushed)
  }

  /** Outside DRY_RUN a successful write leaves in window word i, for each of
      the clamped count's whole words, user word i, and every other window
      word as it was. */
  lemma WritePushesWrittenWords(buf: seq<bv8>, win: seq<Word>, pos: nat, count: nat, user: seq<bv8>)
    requires Covers(win, |buf|) && pos < |buf| && Clamp(|buf|, pos, count) <= |user|
    ensures var n := WordCount(Clamp(|buf|, pos, count));
            var r := WriteStep(buf, win, pos, count, user, false, false);
            forall i :: 0 <= i < |win| ==> r.window[i] == if i < n then user[i * W .. i * W + W] else win[i]
  {
    var c := Clamp(|buf|, pos, count);
    var n := WordCount(c);
    WordsFit(win, |buf|, c);
    var written := Splice(buf, pos, user[..c]);
    var r := WriteStep(buf, win, pos, count, user, false, false);
    assert r.window == Store(win, written, pos, n);
    forall i | 0 <= i < |win|
      ensures r.window[i] == if i < n then user[i * W .. i * W + W] else win[i]
    {
      StoreAt(win, written, pos, n, i);
      if i < n {
        assert (i + 1) * W == i * W + W;
        SpliceInside(buf, pos, user[..c], i * W, i * W + W);
        assert user[..c][i * W .. i * W + W] == user[i * W .. i * W + W];
      }
    }
  }

  /** Writing bytes at a cursor and then reading the same count back at the
      same cursor returns the bytes written. With DRY_RUN the window is not
      touched. Without it this holds for WriteStep's push from the cursor
      before the advance: the write pushes the written words to the window
      base, and the read refreshes the buffer from the same window words.
      The push as device_file.c:135 writes it breaks the round trip, see
      AsWrittenPushBreaksReadBack. */
  lemma WriteThenRead(buf: seq<bv8>, win: seq<Word>, pos: nat, user: seq<bv8>, dryRun: bool)
    requires Covers(win, |buf|) && pos < |buf| && |user| <= |buf| - pos
    ensures var w := WriteStep(buf, win, pos, |user|, user, false, dryRun);
            var r := ReadStep(w.buffer, w.window, pos, |user|, |user|, false, dryRun);
            w.ret == |user| && w.pos == pos + |user| && r.ret == |user| && r.pos == w.pos && r.out == user
  {
    var w := WriteStep(buf, win, pos, |user|, user, false, dryRun);
    var r := ReadStep(w.buffer, w.window, pos, |user|, |user|, false, dryRun);
    var n := WordCount(|user|);
    if !dryRun {
      WordsFit(win, |buf|, |user|);
      FillOfStore(w.buffer, pos, win, n);
      assert r.buffer == w.buffer;
    }
    assert w.buffer[pos..pos + |user|] == user;
  }

  // ---- The value device_file_write returns ----

  /** As written, device_file.c:140 returns `count` on every path past the
      lock: a write at or past the end of the buffer reports the whole request
      as written, and a faulting copy reports the clamped count. Neither
      -EINVAL nor -EFAULT reaches the caller. */
  lemma AsWrittenWriteHidesErrors(buf: seq<bv8>, win: seq<Word>, count: nat, user: seq<bv8>, dryRun: bool)
    requires Covers(win, |buf|)
    ensures var r := WriteStep(buf, win, |buf|, count, user, false, dryRun);
            r.status == -EINVAL && r.ret == count
    ensures 0 < |buf| ==>
              var r := WriteStep(buf, win, 0, |buf|, [], false, dryRun);
              r.status == -EFAULT && r.ret == |buf| && r.pos == 0
  {
  }

  /** What the handler would return with `return retval` at :140, which is
      what it evidently means to return: negative exactly on the three error
      paths (the interrupted one returns -EINTR directly at :110), and
      otherwise the number of bytes written, which the cursor advanced by. */
  lemma WriteStatusReportsErrors(buf: seq<bv8>, win: seq<Word>, pos: nat, count: nat, user: seq<bv8>,
                                 interrupted: bool, dryRun: bool)
    requires Covers(win, |buf|)
    ensures var r := WriteStep(buf, win, pos, count, user, interrupted, dryRun);
            (r.status < 0 <==> interrupted || pos >= |buf| || |user| < Clamp(|buf|, pos, count))
            && (r.status >= 0 ==> r.pos == pos + r.status && pos + r.status <= |buf|)
  {
  }

  // ---- The hardware push of device_file_write as the source writes it ----

  /** At device_file.c:131 the write advances the cursor to pos + c, and at
      :135 hands that advanced cursor to copy_to_vpmu as the start of the
      words to push. When the write reaches the end of the buffer and covers
      at least one word, those words lie past the end of the buffer. */
  lemma AsWrittenPushOverruns(size: nat, pos: nat, count: nat)
    requires pos < size && size <= pos + count && W <= size - pos
    ensures var c := Clamp(size, pos, count);
            !InBounds(size, pos + c, c) && pos + c + WordCount(c) * W - size == WordCount(c) * W
  {
  }

  /** The smallest such case: a write of the whole buffer from cursor 0 pushes
      size / W words that all lie past the end. */
  lemma AsWrittenWholeBufferPushOverruns(size: nat)
    requires W <= size
    ensures !InBounds(size, 0 + Clamp(size, 0, size), Clamp(size, 0, size))
  {
    AsWrittenPushOverruns(size, 0, size);
  }

  /** Even when the advanced cursor leaves room, the pushed words are the bytes
      after the ones just written, not those bytes. Concretely: a 16-byte
      zero buffer, cursor 0, eight bytes 0xAB written. */
  lemma AsWrittenPushMisplaced(win: seq<Word>)
    requires |win| == 2
    ensures var user: seq<bv8> := [0xAB, 0xAB, 0xAB, 0xAB, 0xAB, 0xAB, 0xAB, 0xAB];
            var written := Splice(Zeros(16), 0, user);
            InBounds(16, 0 + 8, 8)
            && Store(win, written, 0 + 8, WordCount(8))[0] != user
            && Store(win, written, 0, WordCount(8))[0] == user
  {
    var user: seq<bv8> := [0xAB, 0xAB, 0xAB, 0xAB, 0xAB, 0xAB, 0xAB, 0xAB];
    var written := Splice(Zeros(16), 0, user);
    assert WordCount(8) == 1;
    StoreAt(win, written, 8, 1, 0);
    StoreAt(win, written, 0, 1, 0);
    assert WordAt(written, 8, 0)[0] == 0;
  }

  /** When a write has put the c bytes b into the buffer at pos and the
      as-written push from pos + c stays in the buffer (by the definition of
      InBounds, when pos + c + (c/W)*W <= size), it sends, as window word i,
      buffer bytes pos + c + i*W .. pos + c + i*W + W, which the write did
      not touch. */
  lemma AsWrittenPushSendsFollowingBytes(buf: seq<bv8>, win: seq<Word>, pos: nat, b: seq<bv8>)
    requires Covers(win, |buf|) && pos + |b| <= |buf|
    ensures InBounds(|buf|, pos + |b|, |b|) ==>
              forall i :: 0 <= i < WordCount(|b|) ==>
                Store(win, Splice(buf, pos, b), pos + |b|, WordCount(|b|))[i]
                == buf[pos + |b| + i * W .. pos + |b| + i * W + W]
  {
    var n := WordCount(|b|);
    if InBounds(|buf|, pos + |b|, |b|) {
      WordsFit(win, |buf|, |b|);
      forall i | 0 <= i < n
        ensures Store(win, Splice(buf, pos, b), pos + |b|, n)[i] == buf[pos + |b| + i * W .. pos + |b| + i * W + W]
      {
        PushedWordAfter(buf, win, pos, b, n, i);
      }
    }
  }

  /** One word of a push of n words from just after a splice of b at pos:
      the original bytes of the buffer there. */
  lemma PushedWordAfter(buf: seq<bv8>, win: seq<Word>, pos: nat, b: seq<bv8>, n: nat, i: nat)
    requires pos + |b| + n * W <= |buf| && n <= |win| && i < n
    ensures Store(win, Splice(buf, pos, b), pos + |b|, n)[i] == buf[pos + |b| + i * W .. pos + |b| + i * W + W]
  {
    var s := Splice(buf, pos, b);
    var at := pos + |b| + i * W;
    assert at + W <= pos + |b| + n * W by {
      assert (i + 1) * W == i * W + W && (i + 1) * W <= n * W;
    }
    StoreAt(win, s, pos + |b|, n, i);
    assert WordAt(s, pos + |b|, i) == s[at .. at + W];
    SpliceAfter(buf, pos, b, at, at + W);
  }

  /** The overrun does not need a write that reaches the end: a 12-byte write
      at cursor 0 of a 16-byte buffer stops short of the end, yet its one
      pushed word would span bytes 12 .. 20. */
  lemma AsWrittenShortWritePushOverruns()
    ensures Clamp(16, 0, 12) == 12 < 16 && !InBounds(16, 0 + Clamp(16, 0, 12), Clamp(16, 0, 12))
  {
    assert WordCount(12) == 1;
  }

  /** The as-written push breaks the write-then-read round trip: a 16-byte
      zero buffer, eight bytes 0xAB written at cursor 0 and pushed from the
      advanced cursor 8, then eight bytes read at cursor 0. The read refreshes
      bytes 0 .. 8 from window word 0, which now holds the zeros of bytes
      8 .. 16, so it returns zeros instead of the bytes written. */
  lemma AsWrittenPushBreaksReadBack(win: seq<Word>)
    requires |win| == 2
    ensures var user: seq<bv8> := [0xAB, 0xAB, 0xAB, 0xAB, 0xAB, 0xAB, 0xAB, 0xAB];
            var written := Splice(Zeros(16), 0, user);
            var pushed := Store(win, written, 0 + 8, WordCount(8));
            var r := ReadStep(written, pushed, 0, 8, 8, false, false);
            r.ret == 8 && r.out != user && r.out[0] == 0
  {
    var user: seq<bv8> := [0xAB, 0xAB, 0xAB, 0xAB, 0xAB, 0xAB, 0xAB, 0xAB];
    var written := Splice(Zeros(16), 0, user);
    assert WordCount(8) == 1;
    var pushed := Store(win, written, 8, 1);
    StoreAt(win, written, 8, 1, 0);
    assert pushed[0][0] == written[8] == 0;
    ReadReturnsWindowWords(written, pushed, 0, 8, 8);
  }

  /** The push from the cursor before the advance always stays inside the
      buffer: that is the range WriteStep pushes. */
  lemma CorrectedPushInBounds(size: nat, pos: nat, count: nat)
    requires pos < size
    ensures InBounds(size, pos, Clamp(size, pos, count))
  {
  }
}
