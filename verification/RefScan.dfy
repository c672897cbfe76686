/** Scanning a stream for known references while it is read through a small buffer. */
module RefScan {
  import opened Prelude

  datatype Poll<+T> = Pending | Failed | Ready(value: T)

  // ---------- Searching one buffer ----------

  predicate OccursAt(hay: Bytes, needle: Bytes, p: nat) {
    p + |needle| <= |hay| && hay[p..p + |needle|] == needle
  }

  /** A non-empty needle `k` occurs at `p`. */
  predicate Hit(needles: seq<Bytes>, hay: Bytes, k: nat, p: nat) {
    k < |needles| && needles[k] != [] && OccursAt(hay, needles[k], p)
  }

  /** No other occurrence of any needle overlaps this one. */
  ghost predicate Isolated(needles: seq<Bytes>, hay: Bytes, k: nat, p: nat) {
    && Hit(needles, hay, k, p)
    && forall j: nat, q: nat :: Hit(needles, hay, j, q) && (j != k || q != p) ==>
         q + |needles[j]| <= p || p + |needles[k]| <= q
  }

  datatype Match = Match(pat: nat, start: nat)

  /** The first needle that occurs at `p`, in the order they were given. */
  method FirstAt(needles: seq<Bytes>, hay: Bytes, p: nat) returns (k: Option<nat>)
    ensures k.Some? ==> Hit(needles, hay, k.value, p) && forall j: nat :: j < k.value ==> !Hit(needles, hay, j, p)
    ensures k.None? ==> forall j: nat :: !Hit(needles, hay, j, p)
  {
    for i := 0 to |needles|
      invariant forall j: nat :: j < i ==> !Hit(needles, hay, j, p)
    {
      if needles[i] != [] && OccursAt(hay, needles[i], p) {
        return Some(i);
      }
    }
    return None;
  }

  /** Position `p` is within one of the matches. */
  ghost predicate Covered(needles: seq<Bytes>, ms: seq<Match>, p: nat) {
    exists m :: m in ms && m.pat < |needles| && m.start <= p < m.start + |needles[m.pat]|
  }

  ghost predicate InTurn(needles: seq<Bytes>, ms: seq<Match>) {
    forall i, j :: 0 <= i < j < |ms| ==>
      ms[i].pat < |needles| && ms[i].start + |needles[ms[i].pat]| <= ms[j].start
  }

  /** Leftmost non-overlapping search: matches come one behind the other, no occurrence starts outside of them, and
      each is the first needle that occurs there. */
  method Find(needles: seq<Bytes>, hay: Bytes) returns (ms: seq<Match>)
    ensures forall m :: m in ms ==> Hit(needles, hay, m.pat, m.start)
    ensures forall m, j: nat :: m in ms && j < m.pat ==> !Hit(needles, hay, j, m.start)
    ensures InTurn(needles, ms) && forall k: nat, p: nat :: Hit(needles, hay, k, p) ==> Covered(needles, ms, p)
    ensures forall k: nat, p: nat :: Isolated(needles, hay, k, p) ==> Match(k, p) in ms
  {
    hide OccursAt;
    ms := [];
    var at: nat := 0;
    while at < |hay|
      invariant forall m :: m in ms ==> Hit(needles, hay, m.pat, m.start) && m.start + |needles[m.pat]| <= at
      invariant forall m, j: nat :: m in ms && j < m.pat ==> !Hit(needles, hay, j, m.start)
      invariant InTurn(needles, ms)
      invariant forall k: nat, p: nat :: Hit(needles, hay, k, p) && p < at ==> Covered(needles, ms, p)
    {
      var k := FirstAt(needles, hay, at);
      if k.Some? {
        CoverMore(needles, ms, Match(k.value, at));
        ms := ms + [Match(k.value, at)];
        at := at + |needles[k.value]|;
      } else {
        at := at + 1;
      }
    }
    forall k: nat, p: nat | Hit(needles, hay, k, p) ensures Covered(needles, ms, p) {
      HitIsInside(needles, hay, k, p);
    }
    forall k: nat, p: nat | Isolated(needles, hay, k, p) ensures Match(k, p) in ms {
      HitIsInside(needles, hay, k, p);
      var m :| m in ms && m.pat < |needles| && m.start <= p < m.start + |needles[m.pat]|;
      assert Hit(needles, hay, m.pat, m.start);
    }
  }

  lemma {:induction false} HitIsInside(needles: seq<Bytes>, hay: Bytes, k: nat, p: nat)
    requires Hit(needles, hay, k, p)
    ensures p < |hay|
  {
  }

  lemma {:induction false} CoverMore(needles: seq<Bytes>, ms: seq<Match>, m: Match)
    requires m.pat < |needles|
    ensures forall p: nat :: Covered(needles, ms, p) ==> Covered(needles, ms + [m], p)
    ensures forall p: nat :: m.start <= p < m.start + |needles[m.pat]| ==> Covered(needles, ms + [m], p)
  {
    assert m in ms + [m];
    forall p: nat | Covered(needles, ms, p) ensures Covered(needles, ms + [m], p) {
      var x :| x in ms && x.pat < |needles| && x.start <= p < x.start + |needles[x.pat]|;
      assert x in ms + [m];
    }
  }

  function Longest(needles: seq<Bytes>): nat {
    if needles == [] then 0
    else
      var n := Longest(needles[..|needles| - 1]);
      if |needles[|needles| - 1]| > n then |needles[|needles| - 1]| else n
  }

  lemma {:induction false} LongestBounds(needles: seq<Bytes>, k: nat)
    requires k < |needles|
    ensures |needles[k]| <= Longest(needles)
  {
    var n := |needles| - 1;
    if k < n {
      LongestBounds(needles[..n], k);
    }
  }

  /** It is the length of one of the needles. */
  lemma {:induction false} LongestIsReached(needles: seq<Bytes>)
    ensures needles != [] ==> exists k :: 0 <= k < |needles| && |needles[k]| == Longest(needles)
    ensures needles == [] ==> Longest(needles) == 0
  {
    if needles != [] {
      var n := |needles| - 1;
      LongestIsReached(needles[..n]);
      if n > 0 {
        var k :| 0 <= k < n && |needles[..n][k]| == Longest(needles[..n]);
        assert needles[k] == needles[..n][k];
      }
      assert |needles[n]| >= Longest(needles[..n]) ==> |needles[n]| == Longest(needles);
    }
  }

  // ---------- Windows of a stream ----------

  lemma {:induction false} SliceJoin(s: Bytes, a: nat, b: nat, c: nat)
    requires a <= b <= c <= |s|
    ensures s[a..b] + s[b..c] == s[a..c]
  {
  }

  /** What occurs in a window occurs in the stream, and what lies within the window occurs in it. */
  lemma {:induction false} HitInWindow(needles: seq<Bytes>, input: Bytes, lo: nat, hi: nat, k: nat, p: nat)
    requires lo <= hi <= |input|
    ensures Hit(needles, input[lo..hi], k, p) <==>
      k < |needles| && lo + p + |needles[k]| <= hi && Hit(needles, input, k, lo + p)
  {
    if k < |needles| && lo + p + |needles[k]| <= hi {
      SliceOfSlice(input, lo, hi, p, p + |needles[k]|);
    }
  }

  lemma {:induction false} IsolatedInWindow(needles: seq<Bytes>, input: Bytes, lo: nat, hi: nat, k: nat, p: nat)
    requires k < |needles| && lo <= p && p + |needles[k]| <= hi <= |input| && Isolated(needles, input, k, p)
    ensures Isolated(needles, input[lo..hi], k, p - lo)
  {
    HitInWindow(needles, input, lo, hi, k, p - lo);
    forall j: nat, q: nat | Hit(needles, input[lo..hi], j, q) && (j != k || q != p - lo)
      ensures q + |needles[j]| <= p - lo || p - lo + |needles[k]| <= q
    {
      HitInWindow(needles, input, lo, hi, j, q);
      assert Hit(needles, input, j, lo + q);
    }
  }

  /** Every isolated occurrence that ends by `upTo` is flagged. */
  ghost predicate FlaggedUpTo(needles: seq<Bytes>, input: Bytes, matches: seq<bool>, upTo: nat)
    requires |matches| == |needles|
  {
    forall k: nat, p: nat :: Isolated(needles, input, k, p) && p + |needles[k]| <= upTo ==> matches[k]
  }

  ghost predicate Occurs(needles: seq<Bytes>, input: Bytes, k: nat) {
    exists p: nat :: Hit(needles, input, k, p)
  }

  /** A flag is only set for a needle that occurs, or was set before. */
  ghost predicate FlagsSound(needles: seq<Bytes>, input: Bytes, before: seq<bool>, matches: seq<bool>)
    requires |matches| == |before| == |needles|
  {
    forall k :: 0 <= k < |needles| ==>
      (before[k] ==> matches[k]) && (matches[k] ==> before[k] || Occurs(needles, input, k))
  }

  /** The flags after all of `input`: it is only scanned if it is as long as the longest needle. */
  ghost predicate WholePass(needles: seq<Bytes>, input: Bytes, before: seq<bool>, matches: seq<bool>)
    requires |matches| == |before| == |needles|
  {
    && FlagsSound(needles, input, before, matches)
    && (|input| >= Longest(needles) ==> FlaggedUpTo(needles, input, matches, |input|))
    && (|input| < Longest(needles) ==> matches == before)
  }

  /** From clear flags, every isolated occurrence is flagged exactly if the input is long enough, or there is none. */
  lemma {:induction false} WholePassFlagsAll(needles: seq<Bytes>, input: Bytes, before: seq<bool>, matches: seq<bool>)
    requires |matches| == |before| == |needles| && WholePass(needles, input, before, matches)
    requires forall k :: 0 <= k < |before| ==> !before[k]
    ensures FlaggedUpTo(needles, input, matches, |input|)
      <==> |input| >= Longest(needles) || forall k: nat, p: nat :: !Isolated(needles, input, k, p)
  {
  }

  /** Scanning the window from `lo` to `hi`, where `lo` leaves an overlap behind what was scanned, flags all up to
      `hi`. */
  lemma {:induction false} WindowsCover(needles: seq<Bytes>, input: Bytes, matches: seq<bool>, matches': seq<bool>,
        scanned: nat, lo: nat, hi: nat)
    requires |matches| == |matches'| == |needles| && lo <= hi <= |input|
    requires FlaggedUpTo(needles, input, matches, scanned)
    requires lo == 0 || lo + Longest(needles) <= scanned + 1
    requires forall k :: 0 <= k < |needles| && matches[k] ==> matches'[k]
    requires forall k: nat, p: nat :: Isolated(needles, input[lo..hi], k, p) ==> matches'[k]
    ensures FlaggedUpTo(needles, input, matches', hi)
  {
    forall k: nat, p: nat | Isolated(needles, input, k, p) && p + |needles[k]| <= hi ensures matches'[k] {
      if p >= lo {
        IsolatedInWindow(needles, input, lo, hi, k, p);
      } else {
        LongestBounds(needles, k);
      }
    }
  }

  lemma {:induction false} SoundInWindow(needles: seq<Bytes>, input: Bytes, lo: nat, hi: nat, before: seq<bool>,
        was: seq<bool>, matches: seq<bool>)
    requires lo <= hi <= |input| && |before| == |was| == |matches| == |needles|
    requires FlagsSound(needles, input, before, was) && FlagsSound(needles, input[lo..hi], was, matches)
    ensures FlagsSound(needles, input, before, matches)
  {
    forall k: nat | k < |needles| && Occurs(needles, input[lo..hi], k) ensures Occurs(needles, input, k) {
      var p: nat :| Hit(needles, input[lo..hi], k, p);
      HitInWindow(needles, input, lo, hi, k, p);
    }
  }

  // ---------- Scanner and reader ----------

  class ReferenceScanner {
    const needles: seq<Bytes>
    var matches: seq<bool>

    ghost predicate Valid()
      reads this
    {
      |matches| == |needles|
    }

    constructor (needles: seq<Bytes>)
      ensures this.needles == needles && Valid() && forall k :: 0 <= k < |needles| ==> !matches[k]
    {
      this.needles := needles;
      matches := seq(|needles|, _ => false);
    }

    /** Scans one buffer, unless it is shorter than the longest needle. */
    method Scan(hay: Bytes)
      requires Valid()
      modifies this
      ensures Valid()
      ensures |hay| < Longest(needles) ==> matches == old(matches)
      ensures FlagsSound(needles, hay, old(matches), matches)
      ensures |hay| >= Longest(needles) ==> forall k: nat, p: nat :: Isolated(needles, hay, k, p) ==> matches[k]
    {
      if |hay| < Longest(needles) {
        return;
      }
      var ms := Find(needles, hay);
      for i := 0 to |ms|
        invariant Valid() && FlagsSound(needles, hay, old(matches), matches)
        invariant forall m :: m in ms[..i] ==> matches[m.pat]
      {
        assert Hit(needles, hay, ms[i].pat, ms[i].start);
        matches := matches[ms[i].pat := true];
      }
      assert ms[..|ms|] == ms;
    }
  }

  /** The wrapped reader: it may be pending, fail, or return any part of what is left. */
  class Source {
    var rest: Bytes

    method PollRead(max: nat) returns (p: Poll<Bytes>)
      modifies this
      ensures p.Ready? ==> |p.value| <= max && old(rest) == p.value + rest
      ensures p.Ready? && p.value == [] && max > 0 ==> old(rest) == []
      ensures !p.Ready? ==> rest == old(rest)
    {
      var pending: bool, failed: bool, wanted: nat := *, *, *;
      if pending || failed {
        return if pending then Pending else Failed;
      }
      var n := if wanted == 0 then 1 else wanted;
      n := if n > max then max else n;
      n := if n > |rest| then |rest| else n;
      p := Ready(rest[..n]);
      rest := rest[n..];
    }
  }

  /** Passes the data through, and scans it in windows that overlap by one byte less than the longest needle. */
  class ReferenceReader {
    const scanner: ReferenceScanner
    const reader: Source
    const capacity: nat
    var buffer: Bytes
    var consumed: nat
    ghost const input: Bytes         // all the wrapped reader will return
    ghost const before: seq<bool>    // the flags at the start
    ghost var scanned: nat           // where the last scanned window ended

    ghost function Overlap(): nat {
      if Longest(scanner.needles) == 0 then 0 else Longest(scanner.needles) - 1
    }

    /** How much of the input has been read into the buffer so far. */
    ghost function Taken(): int
      reads this, reader
    {
      |input| - |reader.rest|
    }

    ghost function Position(): int
      reads this, reader
    {
      Taken() - |buffer| + consumed
    }

    /** What was handed on so far. */
    ghost function Delivered(): Bytes
      reads this, reader
    {
      if 0 <= Position() <= |input| then input[..Position()] else []
    }

    /** What holds also between a read and the scan after it. */
    ghost predicate Filling()
      reads this, reader, scanner
    {
      && scanner.Valid() && |before| == |scanner.needles|
      && Longest(scanner.needles) <= capacity
      && consumed <= |buffer| <= Taken() && |buffer| <= capacity
      && input[Taken()..] == reader.rest && buffer == input[Taken() - |buffer|..Taken()]
      && scanned <= Taken() && (capacity == 0 ==> Taken() == 0)
      && (Taken() == |buffer| || Taken() - |buffer| + Overlap() <= scanned)
      && FlaggedUpTo(scanner.needles, input, scanner.matches, scanned)
      && FlagsSound(scanner.needles, input, before, scanner.matches)
      && (|input| < Longest(scanner.needles) ==> scanner.matches == before)
    }

    ghost predicate Valid()
      reads this, reader, scanner
    {
      && consumed <= |buffer| && 0 <= Position() <= |input|
      && Filling() && (|buffer| > Overlap() ==> scanned == Taken())
    }

    lemma {:induction false} ShortKeepsFlags()
      requires Valid() && |input| < Longest(scanner.needles)
      ensures scanner.matches == before
    {
    }

    constructor (capacity: nat, scanner: ReferenceScanner, reader: Source)
      requires scanner.Valid()
      ensures Valid() && this.scanner == scanner && this.reader == reader
      ensures input == reader.rest && before == scanner.matches && Delivered() == []
      ensures this.capacity == if capacity > Longest(scanner.needles) then capacity else Longest(scanner.needles)
    {
      this.capacity := if capacity > Longest(scanner.needles) then capacity else Longest(scanner.needles);
      this.scanner, this.reader := scanner, reader;
      buffer, consumed, scanned := [], 0, 0;
      input, before := reader.rest, scanner.matches;
    }

    /** The end of the stream: everything was delivered, and the flags are those of a whole pass. */
    ghost predicate Complete()
      requires Valid()
      reads this, reader, scanner
    {
      Delivered() == input && WholePass(scanner.needles, input, before, scanner.matches)
    }

    lemma {:induction false} NoCapacity()
      requires Valid() && capacity == 0
      ensures Position() == 0 && buffer == []
    {
    }

    lemma {:induction false} AtEnd()
      requires Valid() && reader.rest == [] && consumed == |buffer|
      ensures Complete()
    {
      assert input[..|input|] == input;
    }

    /** Moves the last overlapping bytes to the front once everything in the buffer was consumed. */
    method Compact()
      requires Valid() && consumed == |buffer|
      modifies this`buffer, this`consumed
      ensures Valid() && consumed == |buffer| <= Overlap() && Position() == old(Position())
    {
      var overlap := if Longest(scanner.needles) == 0 then 0 else Longest(scanner.needles) - 1;
      if consumed > overlap {
        var start := |buffer| - overlap;
        assert buffer[start..] == input[Taken() - overlap..Taken()];
        buffer := buffer[start..];
        consumed := overlap;
      }
    }

    /** One read into the spare capacity. */
    method Fill() returns (r: Poll<nat>)
      requires Filling()
      modifies this`buffer, reader
      ensures Filling() && Taken() - |buffer| == old(Taken() - |buffer|)
      ensures r.Ready? ==> |buffer| == |old(buffer)| + r.value && |reader.rest| == |old(reader.rest)| - r.value
      ensures r.Ready? && r.value == 0 && |buffer| < capacity ==> reader.rest == []
      ensures !r.Ready? ==> buffer == old(buffer) && reader.rest == old(reader.rest)
    {
      hide FlaggedUpTo, FlagsSound;
      ghost var t := Taken();
      var got := reader.PollRead(capacity - |buffer|);
      match got {
        case Pending => r := Pending;
        case Failed => r := Failed;
        case Ready(bytes) =>
          assert input == input[..t] + (bytes + reader.rest);
          assert input[t..Taken()] == bytes && input[Taken()..] == reader.rest;
          SliceJoin(input, t - |buffer|, t, Taken());
          buffer := buffer + bytes;
          r := Ready(|bytes|);
      }
    }

    /** Scans the whole buffer: the window that ends at what was read so far. */
    method ScanBuffer()
      requires Filling()
      modifies this`scanned, scanner
      ensures Valid() && buffer == old(buffer)
    {
      ghost var needles, was, lo := scanner.needles, scanner.matches, Taken() - |buffer|;
      scanner.Scan(buffer);
      SoundInWindow(needles, input, lo, Taken(), before, was, scanner.matches);
      if |buffer| >= Longest(needles) {
        WindowsCover(needles, input, was, scanner.matches, scanned, lo, Taken());
        scanned := Taken();
      } else {
        assert scanner.matches == was;
      }
    }

    /** Reads until the buffer is longer than the overlap, or the stream ends. */
    method FillUp() returns (r: Poll<()>)
      requires Filling() && consumed == |buffer| <= Overlap()
      modifies this`buffer, reader
      ensures Filling() && consumed <= |buffer| && Position() == old(Position())
      ensures !r.Ready? ==> |buffer| <= Overlap()
      ensures r.Ready? && consumed == |buffer| && capacity > 0 ==> reader.rest == []
    {
      hide FlaggedUpTo, FlagsSound, Longest;
      var overlap := if Longest(scanner.needles) == 0 then 0 else Longest(scanner.needles) - 1;
      while true
        invariant Filling() && Taken() - |buffer| == old(Taken() - |buffer|) && |buffer| <= overlap
        decreases |reader.rest|
      {
        var filled := Fill();
        if !filled.Ready? {
          return if filled.Pending? then Pending else Failed;
        }
        if filled.value == 0 || |buffer| > overlap {
          return Ready(());
        }
      }
    }

    /** Fills until one scan is possible; a pending or failing read leaves what was read so far. */
    method PollFillBuf() returns (p: Poll<Bytes>)
      requires Valid()
      modifies this`buffer, this`consumed, this`scanned, scanner, reader
      ensures Valid() && Position() == old(Position())
      ensures p.Ready? ==> p.value == buffer[consumed..]
      ensures p.Ready? && p.value == [] && capacity > 0 ==> reader.rest == []
    {
      hide Filling;
      if consumed < |buffer| {
        return Ready(buffer[consumed..]);
      }
      Compact();
      var r := FillUp();
      if !r.Ready? {
        return if r.Pending? then Pending else Failed;
      }
      ScanBuffer();
      p := Ready(buffer[consumed..]);
    }

    method Consume(amt: nat)
      requires Valid() && consumed + amt <= |buffer|
      modifies this`consumed
      ensures Valid() && Delivered() == old(Delivered()) + old(buffer[consumed..consumed + amt])
    {
      hide FlaggedUpTo, FlagsSound;
      ghost var base, was := Taken() - |buffer|, consumed;
      SliceJoin(input, 0, base + was, base + was + amt);
      SliceOfSlice(input, base, Taken(), was, was + amt);
      consumed := consumed + amt;
    }

    /** Every poll hands on the next bytes of the input; an empty read means the stream is complete. */
    method PollRead(max: nat) returns (p: Poll<Bytes>)
      requires Valid()
      modifies this`buffer, this`consumed, this`scanned, scanner, reader
      ensures Valid() && Delivered() <= input
      ensures p.Ready? ==> Delivered() == old(Delivered()) + p.value && |p.value| <= max
      ensures !p.Ready? ==> Delivered() == old(Delivered())
      ensures p.Ready? && p.value == [] && max > 0 && capacity > 0 ==> Complete()
      ensures capacity == 0 ==> Delivered() == [] && (p.Ready? ==> p.value == [])
    {
      hide Filling, Complete;
      if capacity == 0 {
        NoCapacity();
      }
      var internal := PollFillBuf();
      if !internal.Ready? {
        return if internal.Pending? then Pending else Failed;
      }
      var amt := if max < |internal.value| then max else |internal.value|;
      Consume(amt);
      if capacity == 0 {
        NoCapacity();
      } else if amt == 0 && max > 0 {
        AtEnd();
      }
      return Ready(internal.value[..amt]);
    }
  }

  /** If no two occurrences in the input overlap, a complete pass from clear flags is exact. */
  lemma {:induction false} CompletePassIsExact(needles: seq<Bytes>, input: Bytes, before: seq<bool>,
        matches: seq<bool>, k: nat)
    requires |before| == |matches| == |needles| && k < |needles| && !before[k] && needles[k] != []
    requires FlagsSound(needles, input, before, matches) && FlaggedUpTo(needles, input, matches, |input|)
    requires forall j: nat, p: nat :: Hit(needles, input, j, p) ==> Isolated(needles, input, j, p)
    ensures matches[k] <==> Occurs(needles, input, k)
  {
  }

  lemma {:induction false} ShortAndIsolated()
    ensures Isolated([[1], [2, 3, 4]], [1], 0, 0) && Longest([[1], [2, 3, 4]]) == 3
  {
    var needles: seq<Bytes> := [[1], [2, 3, 4]];
    assert needles[..1] == [[1]] && Longest(needles[..1]) == 1;
    assert Hit(needles, [1], 0, 0);
  }

  /** A needle that is all of a short input is not found, because another needle is longer than the input. */
  method ShortInputIsNotScanned(capacity: nat, polls: nat, max: nat) returns (matches: seq<bool>)
    ensures matches == [false, false] && Isolated([[1], [2, 3, 4]], [1], 0, 0)
  {
    hide ReferenceReader.Valid, ReferenceReader.Delivered, ReferenceReader.Complete, Isolated, Longest;
    ShortAndIsolated();
    var needles: seq<Bytes> := [[1], [2, 3, 4]];
    var scanner := new ReferenceScanner(needles);
    var source := new Source;
    source.rest := [1];
    var reader := new ReferenceReader(capacity, scanner, source);
    for i := 0 to polls
      invariant reader.Valid() && fresh(scanner) && fresh(source) && fresh(reader)
    {
      var _ := reader.PollRead(max);
    }
    reader.ShortKeepsFlags();
    return scanner.matches;
  }
}
