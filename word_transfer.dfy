/** Word-granular transfers between a device's byte buffer and the shared VPMU
    hardware window: copy_from_vpmu and copy_to_vpmu.

    The window is an array of machine words. The driver's addr_base is an
    integer, and the model assumes the VPMU_IO_READ/VPMU_IO_WRITE macros
    (from a header that is not part of this model) make "addr_base + i"
    address window word i. A device buffer is an array of bytes; a word stored at
    "buffer + off" as word i occupies bytes off + i*W .. off + i*W + W.
    The window is I/O memory and a buffer is a kernel allocation, so the two
    never overlap; the copy routines state that as `window as object != buffer`. */
module WordTransfer {

  /** sizeof(uintptr_t) on the 64-bit targets the driver is built for. */
  const W: nat := 8

  /** One machine word, seen as the W bytes it occupies in memory. */
  type Word = s: seq<bv8> | |s| == W witness [0, 0, 0, 0, 0, 0, 0, 0]

  /** count / sizeof(uintptr_t): the number of whole words in a byte count.
      Fewer than W trailing bytes are left over and are not transferred. */
  function WordCount(count: nat): (n: nat)
    ensures n * W <= count < n * W + W
  {
    count / W
  }

  /** A word transfer of `count` bytes at byte offset `off` stays inside a
      buffer of `len` bytes. Neither copy routine checks this itself. */
  predicate InBounds(len: nat, off: nat, count: nat)
  {
    off + WordCount(count) * W <= len
  }

  /** s with the bytes from `at` on replaced by `b`. */
  function Splice(s: seq<bv8>, at: nat, b: seq<bv8>): (r: seq<bv8>)
    requires at + |b| <= |s|
    ensures |r| == |s|
    ensures forall j :: 0 <= j < |s| ==> r[j] == if at <= j < at + |b| then b[j - at] else s[j]
  {
    s[..at] + b + s[at + |b|..]
  }

  /** A slice of a spliced sequence that lies inside the replaced range is a
      slice of the replacement. */
  lemma SpliceInside(s: seq<bv8>, at: nat, b: seq<bv8>, lo: nat, hi: nat)
    requires at + |b| <= |s| && lo <= hi <= |b|
    ensures Splice(s, at, b)[at + lo .. at + hi] == b[lo..hi]
  {
    var r := Splice(s, at, b);
    forall k | 0 <= k < hi - lo
      ensures r[at + lo .. at + hi][k] == b[lo..hi][k]
    {
      assert r[at + lo + k] == b[lo + k];
    }
  }

  /** A slice of a spliced sequence that lies after the replaced range is a
      slice of the original. */
  lemma SpliceAfter(s: seq<bv8>, at: nat, b: seq<bv8>, lo: nat, hi: nat)
    requires at + |b| <= lo <= hi <= |s|
    ensures Splice(s, at, b)[lo..hi] == s[lo..hi]
  {
    var r := Splice(s, at, b);
    forall k | 0 <= k < hi - lo
      ensures r[lo..hi][k] == s[lo..hi][k]
    {
      assert r[lo + k] == s[lo + k];
    }
  }

  /** Word i of the bytes of s that start at offset off. */
  function WordAt(s: seq<bv8>, off: nat, i: nat): Word
    requires off + i * W + W <= |s|
  {
    s[off + i * W .. off + i * W + W]
  }

  /** The buffer s after window words 0 .. n-1 have been stored into it at
      byte offset off, one word after the other (copy_from_vpmu). */
  function Fill(s: seq<bv8>, off: nat, win: seq<Word>, n: nat): (r: seq<bv8>)
    requires off + n * W <= |s| && n <= |win|
    ensures |r| == |s|
    decreases n
  {
    if n == 0 then s
    else Splice(Fill(s, off, win, n - 1), off + (n - 1) * W, win[n - 1])
  }

  /** The window ws after words 0 .. n-1 of the bytes of s at offset off have
      been written to it (copy_to_vpmu). */
  function Store(ws: seq<Word>, s: seq<bv8>, off: nat, n: nat): (r: seq<Word>)
    requires off + n * W <= |s| && n <= |ws|
    ensures |r| == |ws|
    decreases n
  {
    if n == 0 then ws
    else Store(ws, s, off, n - 1)[n - 1 := WordAt(s, off, n - 1)]
  }

  /** Byte j of a filled buffer: inside the n words it is byte (j-off) % W of
      window word (j-off) / W; everywhere else it is the old byte. */
  lemma {:induction false} FillAt(s: seq<bv8>, off: nat, win: seq<Word>, n: nat, j: nat)
    requires off + n * W <= |s| && n <= |win| && j < |s|
    ensures Fill(s, off, win, n)[j] ==
              if off <= j < off + n * W then win[(j - off) / W][(j - off) % W] else s[j]
  {
    if n > 0 {
      FillAt(s, off, win, n - 1, j);
      var at := off + (n - 1) * W;
      if at <= j < at + W {
        assert (j - off) / W == n - 1 && (j - off) % W == j - at;
      }
    }
  }

  /** FillAt for every byte of the buffer at once. */
  lemma FillEverywhere(s: seq<bv8>, off: nat, win: seq<Word>, n: nat)
    requires off + n * W <= |s| && n <= |win|
    ensures forall j :: 0 <= j < |s| ==>
              Fill(s, off, win, n)[j] == if off <= j < off + n * W then win[(j - off) / W][(j - off) % W] else s[j]
  {
    forall j | 0 <= j < |s|
      ensures Fill(s, off, win, n)[j] == if off <= j < off + n * W then win[(j - off) / W][(j - off) % W] else s[j]
    {
      FillAt(s, off, win, n, j);
    }
  }

  /** One more word of a fill: word i goes to bytes off + i*W .. off + i*W + W,
      which lie inside the buffer when i is below the word count n. */
  lemma NextWord(s: seq<bv8>, off: nat, win: seq<Word>, i: nat, n: nat)
    requires off + n * W <= |s| && n <= |win| && i < n
    ensures off + i * W + W <= |s|
    ensures Fill(s, off, win, i + 1) == Splice(Fill(s, off, win, i), off + i * W, win[i])
  {
    assert (i + 1) * W == i * W + W;
  }

  /** Word i of a stored window: one of the first n is the matching buffer
      word, every other word is the old one. */
  lemma {:induction false} StoreAt(ws: seq<Word>, s: seq<bv8>, off: nat, n: nat, i: nat)
    requires off + n * W <= |s| && n <= |ws| && i < |ws|
    ensures Store(ws, s, off, n)[i] == if i < n then WordAt(s, off, i) else ws[i]
  {
    if n > 0 {
      StoreAt(ws, s, off, n - 1, i);
    }
  }

  /** Reading back what was just written: filling s from a window into which
      the same n words of s were stored gives s again. */
  lemma FillOfStore(s: seq<bv8>, off: nat, ws: seq<Word>, n: nat)
    requires off + n * W <= |s| && n <= |ws|
    ensures Fill(s, off, Store(ws, s, off, n), n) == s
  {
    var win := Store(ws, s, off, n);
    var r := Fill(s, off, win, n);
    forall j | 0 <= j < |s|
      ensures r[j] == s[j]
    {
      FillAt(s, off, win, n, j);
      if off <= j < off + n * W {
        var i, k := (j - off) / W, (j - off) % W;
        StoreAt(ws, s, off, n, i);
        assert off + i * W + k == j;
      }
    }
  }

  /** Writing back what was just read: storing into ws the n words that were
      filled from ws gives ws again. */
  lemma StoreOfFill(t: seq<bv8>, off: nat, ws: seq<Word>, n: nat)
    requires off + n * W <= |t| && n <= |ws|
    ensures Store(ws, Fill(t, off, ws, n), off, n) == ws
  {
    var s := Fill(t, off, ws, n);
    var r := Store(ws, s, off, n);
    forall i | 0 <= i < |ws|
      ensures r[i] == ws[i]
    {
      StoreAt(ws, s, off, n, i);
      if i < n {
        forall k | 0 <= k < W
          ensures WordAt(s, off, i)[k] == ws[i][k]
        {
          FillAt(t, off, ws, n, off + i * W + k);
          assert (i * W + k) / W == i && (i * W + k) % W == k;
        }
      }
    }
  }

  /** The single store of one word into a byte buffer at byte offset at. */
  method PutWord(buffer: array<bv8>, at: nat, val: Word)
    requires at + W <= buffer.Length
    modifies buffer
    ensures buffer[..] == Splice(old(buffer[..]), at, val)
  {
    forall k | 0 <= k < W {
      buffer[at + k] := val[k];
    }
  }

  /** copy_from_vpmu: read count / W words from the window, word i into
      buffer word i at byte offset off. Returns the number of word reads. */
  method CopyFromVpmu(buffer: array<bv8>, off: nat, window: array<Word>, count: nat) returns (words: nat)
    requires InBounds(buffer.Length, off, count)
    requires WordCount(count) <= window.Length
    requires window as object != buffer
    modifies buffer
    ensures words == WordCount(count)
    ensures buffer[..] == Fill(old(buffer[..]), off, window[..], words)
  {
    var n := count / W;
    ghost var s0, win := buffer[..], window[..];
    var i := 0;
    while i < n
      invariant 0 <= i <= n
      invariant window[..] == win
      invariant buffer[..] == Fill(s0, off, win, i)
    {
      var val := window[i];
      NextWord(s0, off, win, i, n);
      PutWord(buffer, off + i * W, val);
      i := i + 1;
    }
    words := i;
  }

  /** copy_to_vpmu: write count / W buffer words, taken from byte offset off,
      to window words 0 ..; the buffer is only read. Returns the number of word
      writes. */
  method CopyToVpmu(window: array<Word>, buffer: array<bv8>, off: nat, count: nat) returns (words: nat)
    requires InBounds(buffer.Length, off, count)
    requires WordCount(count) <= window.Length
    requires window as object != buffer
    modifies window
    ensures words == WordCount(count)
    ensures window[..] == Store(old(window[..]), buffer[..], off, words)
    ensures forall i :: 0 <= i < window.Length ==>
              window[i] == if i < words then buffer[off + i * W .. off + i * W + W] else old(window[i])
  {
    var n := count / W;
    var i := 0;
    while i < n
      invariant 0 <= i <= n
      invariant window[..] == Store(old(window[..]), buffer[..], off, i)
    {
      assert (i + 1) * W == i * W + W;
      window[i] := buffer[off + i * W .. off + i * W + W];
      i := i + 1;
    }
    words := i;
    forall i | 0 <= i < window.Length
      ensures window[i] == if i < words then buffer[off + i * W .. off + i * W + W] else old(window[i])
    {
      StoreAt(old(window[..]), buffer[..], off, words, i);
    }
  }
}
