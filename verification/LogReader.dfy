/** The record scanner of `tntrpl/tnt_log.c`: it looks for the next marker, whatever lies before it, and then
    checks a header and its payload. The checksum is any function of the bytes. */
module LogReader {
  import opened MsgPack

  // ---------------------------------------------------------------- little-endian numbers

  function LE(n: nat, k: nat): (s: bytes)
    ensures |s| == k
  {
    if k == 0 then [] else [n % 256] + LE(n / 256, k - 1)
  }

  function FromLE(s: bytes): nat
  {
    if |s| == 0 then 0 else s[0] + 256 * FromLE(s[1..])
  }

  lemma {:induction false} LEInverse(n: nat, k: nat)
    requires n < Pow256(k)
    ensures FromLE(LE(n, k)) == n
  {
    if k > 0 { LEInverse(n / 256, k - 1); }
  }

  lemma {:induction false} FromLEInjective(a: bytes, b: bytes)
    requires |a| == |b| && FromLE(a) == FromLE(b)
    ensures a == b
  {
    if |a| > 0 {
      FromLEInjective(a[1..], b[1..]);
      assert a == [a[0]] + a[1..] && b == [b[0]] + b[1..];
    }
  }

  lemma {:induction false} FromLEBound(s: bytes)
    ensures FromLE(s) < Pow256(|s|)
  {
    if |s| > 0 { FromLEBound(s[1..]); }
  }

  lemma FromLEFour(a: byte, b: byte, c: byte, d: byte)
    ensures FromLE([a, b, c, d]) == a + 0x100 * b + 0x1_0000 * c + 0x100_0000 * d
  {
    assert [a, b, c, d][1..] == [b, c, d] && [b, c, d][1..] == [c, d] && [c, d][1..] == [d] && [d][1..] == [];
    assert FromLE([]) == 0 && FromLE([d]) == d && FromLE([c, d]) == c + 0x100 * d;
  }

  // ---------------------------------------------------------------- markers

  const MARKER: u32 := 0xba0babed
  const EOF_MARKER: u32 := 0x10adab1e
  const MARK: bytes := [0xed, 0xab, 0x0b, 0xba]
  const EOF_MARK: bytes := [0x1e, 0xab, 0xad, 0x10]

  predicate MarkAt(file: bytes, i: nat)
  {
    i + 4 <= |file| && file[i..i + 4] == MARK
  }

  predicate NoMarkBetween(file: bytes, from: nat, to: nat)
  {
    forall j :: from <= j < to ==> !MarkAt(file, j)
  }

  /** The first occurrence of the marker at or after `from`. */
  predicate FirstMark(file: bytes, from: nat, i: nat)
  {
    from <= i && MarkAt(file, i) && NoMarkBetween(file, from, i)
  }

  lemma WindowIsMark(w: bytes)
    requires |w| == 4
    ensures FromLE(w) == MARKER <==> w == MARK
  {
    FromLEFour(0xed, 0xab, 0x0b, 0xba);
    if FromLE(w) == MARKER { FromLEInjective(w, MARK); }
  }

  lemma WindowIsEofMark(w: bytes)
    requires |w| == 4
    ensures FromLE(w) == EOF_MARKER <==> w == EOF_MARK
  {
    FromLEFour(0x1e, 0xab, 0xad, 0x10);
    if FromLE(w) == EOF_MARKER { FromLEInjective(w, EOF_MARK); }
  }

  /** Shifting one more byte into the 32-bit window: `marker >> 8 | c << 24`. */
  lemma WindowShifts(w: bytes, c: byte)
    requires |w| == 4
    ensures FromLE(w) / 256 + c * 0x100_0000 == FromLE(w[1..] + [c])
  {
    assert w == [w[0], w[1], w[2], w[3]];
    FromLEFour(w[0], w[1], w[2], w[3]);
    assert w[1..] + [c] == [w[1], w[2], w[3], c];
    FromLEFour(w[1], w[2], w[3], c);
  }

  /** One more byte of the file into the window. */
  lemma WindowNext(file: bytes, pos: nat, c: int)
    requires 4 <= pos < |file| && c == file[pos]
    ensures FromLE(file[pos - 4..pos]) / 256 + c * 0x100_0000 == FromLE(file[pos - 3..pos + 1]) < TWO32
  {
    WindowShifts(file[pos - 4..pos], file[pos]);
    assert file[pos - 4..pos][1..] + [file[pos]] == file[pos - 3..pos + 1];
    FromLEBound(file[pos - 3..pos + 1]);
    PowValues();
  }

  /** What a look at the window tells. */
  lemma MarkOrNot(file: bytes, from: nat, i: nat)
    requires from <= i && i + 4 <= |file| && NoMarkBetween(file, from, i)
    ensures FromLE(file[i..i + 4]) == MARKER ==> FirstMark(file, from, i)
    ensures FromLE(file[i..i + 4]) != MARKER ==> NoMarkBetween(file, from, i + 1)
    ensures FromLE(file[i..i + 4]) != MARKER && i + 4 == |file| ==> NoMarkBetween(file, from, |file|)
  {
    hide FromLE;
    WindowIsMark(file[i..i + 4]);
  }

  lemma ShortTail(file: bytes, from: nat)
    ensures from + 4 > |file| ==> NoMarkBetween(file, from, |file|)
  {
  }

  lemma NoneYet(file: bytes, from: nat)
    ensures NoMarkBetween(file, from, from)
  {
  }

  lemma FirstMarkUnique(file: bytes, from: nat, i: nat)
    requires FirstMark(file, from, i)
    ensures i + 4 <= |file| && !NoMarkBetween(file, from, |file|)
    ensures forall j: nat :: FirstMark(file, from, j) ==> j == i
  {
    hide MarkAt;
    assert MarkAt(file, i);
    MarkFits(file, i);
  }

  lemma MarkFits(file: bytes, i: nat)
    requires MarkAt(file, i)
    ensures i + 4 <= |file|
  {
  }

  lemma NoFirstMark(file: bytes, from: nat)
    requires NoMarkBetween(file, from, |file|)
    ensures forall j: nat :: !FirstMark(file, from, j)
  {
  }

  /** The marker does not overlap itself, so bytes without a marker inside them do not form one together
      with the marker that follows them either. */
  lemma GapThenMark(pre: bytes, gap: bytes, rest: bytes)
    requires NoMarkBetween(gap, 0, |gap|)
    ensures FirstMark(pre + gap + MARK + rest, |pre|, |pre| + |gap|)
  {
    var file, n := pre + gap + MARK + rest, |pre| + |gap|;
    assert file[n..n + 4] == MARK;
    forall j | |pre| <= j < n
      ensures !MarkAt(file, j)
    {
      var k := j - |pre|;
      if j + 4 <= n {
        assert !MarkAt(gap, k);
        assert file[j..j + 4] == gap[k..k + 4];
      } else if j + 4 <= |file| {
        assert file[n] == MARK[0];
        assert file[j..j + 4][n - j] == file[n];
      }
    }
  }

  // ---------------------------------------------------------------- records

  /** `struct tnt_log_header_v11`, packed: crc32_hdr, lsn, tm, len, crc32_data. */
  const HEADER: nat := 28

  datatype Header = Header(crcHdr: u32, lsn: u64, tm: u64, len: u32, crcData: u32)

  function FromLE32(s: bytes): u32
    requires |s| == 4
  {
    FromLEBound(s);
    PowValues();
    FromLE(s)
  }

  function FromLE64(s: bytes): u64
    requires |s| == 8
  {
    FromLEBound(s);
    PowValues();
    FromLE(s)
  }

  function HeaderOf(s: bytes): Header
    requires |s| == HEADER
  {
    Header(FromLE32(s[..4]), FromLE64(s[4..12]), FromLE64(s[12..20]), FromLE32(s[20..24]), FromLE32(s[24..]))
  }

  /** What the part of a header under the header checksum looks like. */
  function Covered(lsn: u64, tm: u64, len: u32, crcData: u32): (s: bytes)
    ensures |s| == HEADER - 4
  {
    LE(lsn, 8) + LE(tm, 8) + LE(len, 4) + LE(crcData, 4)
  }

  datatype Item = Item(gap: bytes, lsn: u64, tm: u64, data: bytes)

  function HeaderBytes(crc: bytes -> u32, it: Item): (s: bytes)
    requires |it.data| < TWO32
    ensures |s| == HEADER
  {
    var covered := Covered(it.lsn, it.tm, |it.data|, crc(it.data));
    LE(crc(covered), 4) + covered
  }

  /** A record as it lies in a file: any bytes, the marker, a header with both checksums, the payload. */
  function ItemBytes(crc: bytes -> u32, it: Item): (b: bytes)
    requires |it.data| < TWO32
    ensures |b| == |it.gap| + 4 + HEADER + |it.data|
  {
    it.gap + MARK + HeaderBytes(crc, it) + it.data
  }

  lemma HeaderReads(crc: bytes -> u32, it: Item)
    requires |it.data| < TWO32
    ensures var h := HeaderBytes(crc, it);
            HeaderOf(h) == Header(crc(h[4..]), it.lsn, it.tm, |it.data|, crc(it.data))
  {
    hide LE, FromLE;
    PowValues();
    var h := HeaderBytes(crc, it);
    var covered := Covered(it.lsn, it.tm, |it.data|, crc(it.data));
    assert h[4..] == covered && h[..4] == LE(crc(covered), 4);
    assert h[4..12] == LE(it.lsn, 8) && h[12..20] == LE(it.tm, 8);
    assert h[20..24] == LE(|it.data|, 4) && h[24..] == LE(crc(it.data), 4);
    LEInverse(crc(covered), 4);
    LEInverse(it.lsn, 8);
    LEInverse(it.tm, 8);
    LEInverse(|it.data|, 4);
    LEInverse(crc(it.data), 4);
  }

  // ---------------------------------------------------------------- one read

  datatype Outcome = Record(header: Header, data: bytes) | End | Corrupt

  /** An outcome and where it leaves the file position and `offset`. */
  datatype Reading = Reading(outcome: Outcome, pos: nat, offset: nat)

  /** At the end of the file, exactly four bytes behind `offset` have to be the end marker; anything else
      there is corruption, and any other number of bytes is a plain end. Only an end marker moves `offset`. */
  function AtEof(file: bytes, pos: nat, offset: nat): (r: Reading)
    requires pos <= |file|
    ensures r.pos == pos && !r.outcome.Record?
    ensures r.outcome.Corrupt? <==> pos == offset + 4 && file[offset..pos] != EOF_MARK
    ensures r.offset == if pos == offset + 4 && file[offset..pos] == EOF_MARK then pos else offset
  {
    if pos == offset + 4 then
      WindowIsEofMark(file[offset..pos]);
      if FromLE(file[offset..pos]) == EOF_MARKER then Reading(End, pos, pos) else Reading(Corrupt, pos, offset)
    else Reading(End, pos, offset)
  }

  /** What a read makes of the bytes behind a marker that ends at `h`. */
  function Behind(file: bytes, crc: bytes -> u32, h: nat, offset: nat): Reading
    requires h <= |file|
  {
    if |file| - h < HEADER then AtEof(file, |file|, offset)
    else
      var d := h + HEADER;
      var hdr := HeaderOf(file[h..d]);
      if crc(file[h + 4..d]) != hdr.crcHdr then Reading(Corrupt, d, d)
      else if hdr.len == 0 then AtEof(file, d, d)
      else if d + hdr.len > |file| then AtEof(file, |file|, d)
      else if crc(file[d..d + hdr.len]) != hdr.crcData then Reading(Corrupt, d + hdr.len, d)
      else Reading(Record(hdr, file[d..d + hdr.len]), d + hdr.len, d)
  }

  /** A header lies behind `h`: the checksum of the header, then 24 bytes under it, of which the last eight are
      the length of the payload and its checksum. */
  predicate GoodHeader(file: bytes, crc: bytes -> u32, h: nat)
  {
    h + 28 <= |file| && crc(file[h + 4..h + 28]) == FromLE(file[h..h + 4])
  }

  function LengthAt(file: bytes, h: nat): nat
    requires h + 28 <= |file|
  {
    FromLE(file[h + 20..h + 24])
  }

  /** A payload lies behind it in full, and there is one. */
  predicate FullPayload(file: bytes, h: nat)
    requires h + 28 <= |file|
  {
    0 < LengthAt(file, h) <= |file| - h - 28
  }

  predicate GoodPayload(file: bytes, crc: bytes -> u32, h: nat)
    requires h + 28 <= |file| && FullPayload(file, h)
  {
    crc(file[h + 28..h + 28 + LengthAt(file, h)]) == FromLE(file[h + 24..h + 28])
  }

  /** What a read behind a marker that ends at `h` may return: a record if and only if header and payload are
      there in full and both checksums match, and then these are its bytes; corruption whenever one of the
      checksums does not match. */
  predicate Checked(file: bytes, crc: bytes -> u32, h: nat, r: Outcome)
  {
    && (r.Record? <==> GoodHeader(file, crc, h) && FullPayload(file, h) && GoodPayload(file, crc, h))
    && (r.Record? ==>
          && r.header.lsn == FromLE(file[h + 4..h + 12]) && r.header.tm == FromLE(file[h + 12..h + 20])
          && h + 28 + |r.data| <= |file| && r.header.len == |r.data| && r.data == file[h + 28..h + 28 + |r.data|]
          && r.header.crcHdr == crc(file[h + 4..h + 28]) && r.header.crcData == crc(r.data))
    && (h + 28 <= |file| && !GoodHeader(file, crc, h) ==> r.Corrupt?)
    && (GoodHeader(file, crc, h) && FullPayload(file, h) && !GoodPayload(file, crc, h) ==> r.Corrupt?)
  }

  lemma BehindChecked(file: bytes, crc: bytes -> u32, h: nat, offset: nat)
    requires h <= |file|
    ensures Checked(file, crc, h, Behind(file, crc, h, offset).outcome)
  {
    hide FromLE, AtEof;
    if h + HEADER <= |file| { HeaderPlaces(file, h); }
  }

  /** Where the fields of a header lie. */
  lemma HeaderPlaces(file: bytes, h: nat)
    requires h + HEADER <= |file|
    ensures var hdr := HeaderOf(file[h..h + HEADER]);
            && hdr.crcHdr == FromLE(file[h..h + 4]) && hdr.lsn == FromLE(file[h + 4..h + 12])
            && hdr.tm == FromLE(file[h + 12..h + 20]) && hdr.len == LengthAt(file, h)
            && hdr.crcData == FromLE(file[h + 24..h + 28])
  {
    hide FromLE;
    var s := file[h..h + HEADER];
    assert s[..4] == file[h..h + 4];
    assert s[4..12] == file[h + 4..h + 12];
    assert s[12..20] == file[h + 12..h + 20];
    assert s[20..24] == file[h + 20..h + 24];
    assert s[24..] == file[h + 24..h + 28];
  }

  /** `struct tnt_log` over an open file. */
  class Log {
    const file: bytes
    const crc: bytes -> u32
    var pos: nat
    var currentOffset: nat
    var offset: nat

    constructor (file: bytes, crc: bytes -> u32)
      ensures this.file == file && this.crc == crc && pos == 0 && offset == 0
    {
      this.file, this.crc := file, crc;
      pos, currentOffset, offset := 0, 0, 0;
    }

    /** `fread` of one item of n bytes; a short item is consumed all the same. */
    method Fread(n: nat) returns (got: bool, s: bytes)
      requires pos <= |file|
      modifies this`pos
      ensures got <==> n > 0 && old(pos) + n <= |file|
      ensures got ==> s == file[old(pos)..old(pos) + n] && pos == old(pos) + n
      ensures !got ==> pos == if n == 0 then old(pos) else |file|
    {
      if n == 0 { return false, []; }
      if n > |file| - pos {
        pos := |file|;
        return false, [];
      }
      s := file[pos..pos + n];
      pos := pos + n;
      return true, s;
    }

    /** `tnt_log_eof` */
    method Eof() returns (r: Outcome)
      requires pos <= |file|
      modifies this`offset
      ensures r.Corrupt? <==> pos == old(offset) + 4 && file[old(offset)..pos] != EOF_MARK
      ensures r.Corrupt? || r.End?
      ensures offset == if pos == old(offset) + 4 && file[old(offset)..pos] == EOF_MARK then pos else old(offset)
    {
      if pos == offset + 4 {
        WindowIsEofMark(file[offset..pos]);
        var marker := FromLE(file[offset..pos]);
        if marker != EOF_MARKER { return Corrupt; }
        offset := pos;
      }
      return End;
    }

    /** The marker search: the shifting window stops right behind the first occurrence of the marker, and
        reaches the end of the file only if there is none. */
    method Seek() returns (found: bool)
      requires pos <= |file|
      modifies this`pos
      ensures pos <= |file|
      ensures found ==> pos >= 4 && FirstMark(file, old(pos), pos - 4)
      ensures !found ==> pos == |file| && NoMarkBetween(file, old(pos), |file|)
    {
      hide FromLE, MarkAt, NoMarkBetween, FirstMark;
      ShortTail(file, pos);
      NoneYet(file, pos);
      var got, w := Fread(4);
      if !got { return false; }
      var marker: u32 := FromLE32(w);
      while marker != MARKER
        invariant old(pos) + 4 <= pos <= |file|
        invariant marker == FromLE(file[pos - 4..pos])
        invariant NoMarkBetween(file, old(pos), pos - 4)
        decreases |file| - pos
      {
        MarkOrNot(file, old(pos), pos - 4);
        if pos == |file| { return false; }
        var c: int := file[pos];
        WindowNext(file, pos, c);
        marker := marker / 256 + c * 0x100_0000;
        pos := pos + 1;
      }
      MarkOrNot(file, old(pos), pos - 4);
      return true;
    }

    /** `tnt_log_read` */
    method Read() returns (r: Outcome)
      requires pos <= |file|
      modifies this
      ensures pos <= |file| && currentOffset == old(pos)
      ensures NoMarkBetween(file, old(pos), |file|) ==>
                Reading(r, pos, offset) == AtEof(file, |file|, old(offset))
      ensures forall i: nat :: FirstMark(file, old(pos), i) ==>
                && Reading(r, pos, offset) == Behind(file, crc, i + 4, old(offset))
                && Checked(file, crc, i + 4, r)
    {
      hide Checked, FromLE, HeaderOf, MarkAt, NoMarkBetween, FirstMark;
      currentOffset := pos;
      var found := Seek();
      if !found {
        NoFirstMark(file, old(pos));
        r := Eof();
        return;
      }
      ghost var h := pos;
      FirstMarkUnique(file, old(pos), h - 4);
      BehindChecked(file, crc, h, old(offset));
      var got, hs := Fread(HEADER);
      if !got {
        r := Eof();
        return;
      }
      offset := pos;
      var hdr := HeaderOf(hs);
      assert hs[4..] == file[h + 4..h + HEADER];
      if crc(hs[4..]) != hdr.crcHdr { return Corrupt; }
      var data;
      got, data := Fread(hdr.len);
      if !got {
        r := Eof();
        return;
      }
      if crc(data) != hdr.crcData { return Corrupt; }
      return Record(hdr, data);
    }
  }

  // ---------------------------------------------------------------- whole files

  predicate Readable(it: Item)
  {
    0 < |it.data| < TWO32 && NoMarkBetween(it.gap, 0, |it.gap|)
  }

  predicate AllReadable(items: seq<Item>)
  {
    forall i :: 0 <= i < |items| ==> Readable(items[i])
  }

  function Layout(crc: bytes -> u32, items: seq<Item>): bytes
    requires AllReadable(items)
  {
    if |items| == 0 then [] else ItemBytes(crc, items[0]) + Layout(crc, items[1..])
  }

  /** The record of an item, with the checksums its writer computed. */
  function RecordOf(crc: bytes -> u32, it: Item): (r: Outcome)
    requires |it.data| < TWO32
    ensures r.Record?
  {
    Record(HeaderOf(HeaderBytes(crc, it)), it.data)
  }

  /** Reading anywhere in front of an item gives exactly its record and ends right behind it. An empty
      payload is the one case that is not read back. */
  lemma OneItem(file: bytes, crc: bytes -> u32, pre: bytes, it: Item, rest: bytes, offset: nat)
    requires |it.data| < TWO32 && NoMarkBetween(it.gap, 0, |it.gap|)
    requires file == pre + ItemBytes(crc, it) + rest
    ensures var i := |pre| + |it.gap|;
            && FirstMark(file, |pre|, i) && i + 4 <= |file|
            && var r := Behind(file, crc, i + 4, offset);
               && (r.outcome.Record? <==> |it.data| > 0)
               && (|it.data| > 0 ==> r.outcome == RecordOf(crc, it) && r.pos == |pre + ItemBytes(crc, it)|)
  {
    hide FromLE, HeaderOf, HeaderBytes, NoMarkBetween;
    var hb := HeaderBytes(crc, it);
    ItemInFile(pre, it.gap, MARK, hb, it.data, rest);
    GapThenMark(pre, it.gap, hb + it.data + rest);
    ItemSlices(pre + it.gap + MARK, hb, it.data, rest);
    HeaderReads(crc, it);
  }

  /** A record whose payload has been altered on the disk is reported as corrupt, unless the checksum cannot
      tell. */
  lemma AlteredItem(file: bytes, crc: bytes -> u32, pre: bytes, it: Item, data: bytes, rest: bytes, offset: nat)
    requires 0 < |it.data| == |data| < TWO32 && NoMarkBetween(it.gap, 0, |it.gap|)
    requires file == pre + (it.gap + MARK + HeaderBytes(crc, it) + data) + rest
    ensures var i := |pre| + |it.gap|;
            && FirstMark(file, |pre|, i) && i + 4 <= |file|
            && (crc(data) != crc(it.data) ==> Behind(file, crc, i + 4, offset).outcome == Corrupt)
  {
    hide FromLE, HeaderOf, HeaderBytes, NoMarkBetween;
    var hb := HeaderBytes(crc, it);
    ItemInFile(pre, it.gap, MARK, hb, data, rest);
    GapThenMark(pre, it.gap, hb + data + rest);
    ItemSlices(pre + it.gap + MARK, hb, data, rest);
    HeaderReads(crc, it);
  }

  lemma ItemInFile(pre: bytes, gap: bytes, mark: bytes, hb: bytes, data: bytes, rest: bytes)
    ensures pre + (gap + mark + hb + data) + rest == pre + gap + mark + (hb + data + rest)
  {
  }

  lemma ItemSlices(front: bytes, hb: bytes, data: bytes, rest: bytes)
    requires |hb| == HEADER
    ensures var file := front + (hb + data + rest);
            var h := |front|;
            && file[h..h + HEADER] == hb
            && file[h + 4..h + HEADER] == hb[4..]
            && file[h + HEADER..h + HEADER + |data|] == data
  {
  }

  function RecordsOf(crc: bytes -> u32, items: seq<Item>): (rs: seq<Outcome>)
    requires AllReadable(items)
    ensures |rs| == |items|
  {
    if |items| == 0 then [] else [RecordOf(crc, items[0])] + RecordsOf(crc, items[1..])
  }

  lemma Regroup(pre: bytes, a: bytes, b: bytes, c: bytes)
    ensures pre + (a + b + c) == pre + a + (b + c)
  {
  }

  lemma NextItem(file: bytes, crc: bytes -> u32, pre: bytes, left: seq<Item>, tail: bytes, offset: nat)
    requires AllReadable(left) && |left| > 0 && file == pre + (Layout(crc, left) + tail)
    ensures AllReadable(left[1..]) && |left[0].data| < TWO32
    ensures file == pre + ItemBytes(crc, left[0]) + (Layout(crc, left[1..]) + tail)
    ensures var i := |pre| + |left[0].gap|;
            && FirstMark(file, |pre|, i) && i + 4 <= |file|
            && Behind(file, crc, i + 4, offset).outcome == RecordOf(crc, left[0])
            && Behind(file, crc, i + 4, offset).pos == |pre + ItemBytes(crc, left[0])|
    ensures RecordsOf(crc, left) == [RecordOf(crc, left[0])] + RecordsOf(crc, left[1..])
  {
    hide Behind, ItemBytes, RecordOf, NoMarkBetween, FirstMark, MarkAt;
    assert Readable(left[0]);
    Regroup(pre, ItemBytes(crc, left[0]), Layout(crc, left[1..]), tail);
    OneItem(file, crc, pre, left[0], Layout(crc, left[1..]) + tail, offset);
  }

  lemma TailHasNone(pre: bytes, tail: bytes)
    requires NoMarkBetween(tail, 0, |tail|)
    ensures NoMarkBetween(pre + ([] + tail), |pre|, |pre + tail|)
  {
    var file := pre + ([] + tail);
    forall j | |pre| <= j < |file|
      ensures !MarkAt(file, j)
    {
      if j + 4 <= |file| {
        assert !MarkAt(tail, j - |pre|);
        assert file[j..j + 4] == tail[j - |pre|..j - |pre| + 4];
      }
    }
  }

  /** Reads as long as records come, as a caller of `tnt_log_next` does. From any place in a file that is
      followed by readable items and then bytes without a marker it yields exactly their records, in order, and nothing else. */
  method ReadLog(log: Log, ghost front: bytes, ghost items: seq<Item>, ghost tail: bytes)
    returns (records: seq<Outcome>, last: Outcome)
    requires log.pos == |front| && AllReadable(items) && NoMarkBetween(tail, 0, |tail|)
    requires log.file == front + (Layout(log.crc, items) + tail)
    modifies log
    ensures records == RecordsOf(log.crc, items) && !last.Record? && log.pos == |log.file|
  {
    hide FirstMark, NoMarkBetween, Behind, Checked, AtEof, FromLE, HeaderOf, ItemBytes, RecordOf;
    records := [];
    ghost var pre, left := front, items;
    while true
      invariant AllReadable(left) && log.pos == |pre| && log.file == pre + (Layout(log.crc, left) + tail)
      invariant records + RecordsOf(log.crc, left) == RecordsOf(log.crc, items)
      decreases |left|
    {
      ghost var at := log.pos;
      ghost var offset := log.offset;
      if |left| > 0 {
        NextItem(log.file, log.crc, pre, left, tail, offset);
      } else {
        TailHasNone(pre, tail);
      }
      last := log.Read();
      if !last.Record? { return; }
      records := records + [last];
      pre := pre + ItemBytes(log.crc, left[0]);
      left := left[1..];
    }
  }
}
