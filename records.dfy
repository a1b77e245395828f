/** The two record layouts `main` reads out of a reassembled stream
    (smatool.c): the spot-value records of `$POW` and `$INVERTERDATA`,
    whose stride of 28 or 40 bytes is chosen by the stream's type byte
    (smatool.c:1862-1872, 2048-2058), and the 12-byte archive records of
    `$ARCHIVEDATA1`, each of which must be exactly 300 seconds after the one
    before (smatool.c:1963-2032). */
module Records {
  import opened Bytes
  import opened Decode

  // ---------------------------------------------------------------------
  // Spot-value records

  /** The offset of record `k` for a stride of `gap` bytes. */
  function Start(k: nat, gap: nat): nat
  {
    k * gap
  }

  /** The stride after reading the type byte `kind` (`data[3]`): 40 for the
      types 0x08 and 0x10, 28 for 0x40 and 0x00, and for any other type the
      stride the previous query left (1 before any is known). */
  function NextGap(gap: nat, kind: bv8): nat
  {
    if kind == 0x00 || kind == 0x40 then 28
    else if kind == 0x08 || kind == 0x10 then 40
    else gap
  }

  /** What the loop body takes from a record starting at `i`: the two key
      bytes that select its description and the time at bytes 4..7. */
  datatype PowerRecord = PowerRecord(key1: bv8, key2: bv8, time: nat)

  /** The record the loop reads at offset `i`. */
  function RecordAt(data: seq<bv8>, i: nat): PowerRecord
    requires i + 8 <= |data|
  {
    PowerRecord(data[i + 1], data[i + 2], StreamValue(data[i + 4..i + 8]))
  }

  /** Every record the loop starts inside the data also ends inside it:
      the loop reads up to byte 10 of each record (the value at bytes
      8..10). */
  ghost predicate RecordsFit(n: nat, gap: nat)
  {
    forall k: nat :: Start(k, gap) < n ==> Start(k, gap) + 11 <= n
  }

  /** The stride choice and the loop `for (i = 0; i < datalen; i += gap)`
      over the `datalen` bytes of `data`. */
  method PowerRecords(data: seq<bv8>, gap0: nat) returns (gap: nat, records: seq<PowerRecord>)
    requires |data| >= 4 && gap0 >= 1
    requires RecordsFit(|data|, NextGap(gap0, data[3]))
    ensures gap == NextGap(gap0, data[3])
    ensures forall k :: 0 <= k < |records| ==> Start(k, gap) < |data| && records[k] == RecordAt(data, Start(k, gap))
    ensures Start(|records|, gap) >= |data|
  {
    gap := gap0;
    if data[3] == 0x08 {
      gap := 40;
    }
    if data[3] == 0x10 {
      gap := 40;
    }
    if data[3] == 0x40 {
      gap := 28;
    }
    if data[3] == 0x00 {
      gap := 28;
    }
    records := [];
    var i := 0;
    while i < |data|
      invariant i == Start(|records|, gap)
      invariant forall k :: 0 <= k < |records| ==> Start(k, gap) < |data| && records[k] == RecordAt(data, Start(k, gap))
      decreases |data| - i
    {
      assert Start(|records|, gap) + 11 <= |data|;
      var time := ConvertStream(data[i + 4..], 4);
      assert data[i + 4..][..4] == data[i + 4..i + 8];
      StartNext(|records|, gap);
      records := records + [PowerRecord(data[i + 1], data[i + 2], time)];
      i := i + gap;
    }
  }

  /** The next record starts one stride later. */
  lemma StartNext(k: nat, gap: nat)
    ensures Start(k + 1, gap) == Start(k, gap) + gap
  {
  }

  /** The stride is 28 or 40 exactly when the type byte is one of the four
      known ones; otherwise it is left as it was. */
  lemma StrideChoice(gap: nat, kind: bv8)
    ensures NextGap(gap, kind) == 28 <==> kind == 0x00 || kind == 0x40 || (gap == 28 && kind != 0x08 && kind != 0x10)
    ensures NextGap(gap, kind) == 40 <==> kind == 0x08 || kind == 0x10 || (gap == 40 && kind != 0x00 && kind != 0x40)
    ensures kind !in {0x00, 0x08, 0x10, 0x40} ==> NextGap(gap, kind) == gap
  {
  }

  /** With a stride of `gap` and `m` whole records the loop reads exactly
      `m` records. */
  lemma WholeRecords(data: seq<bv8>, gap0: nat, gap: nat, records: seq<PowerRecord>, m: nat)
    requires gap >= 1 && |data| == Start(m, gap)
    requires forall k :: 0 <= k < |records| ==> Start(k, gap) < |data|
    requires Start(|records|, gap) >= |data|
    ensures |records| == m
  {
    if |records| < m {
      StartMonotone(|records|, m - 1, gap);
      StartNext(m - 1, gap);
    }
  }

  /** Later records start later. */
  lemma {:induction false} StartMonotone(j: nat, k: nat, gap: nat)
    requires j <= k
    ensures Start(j, gap) <= Start(k, gap)
    decreases k - j
  {
    if j < k {
      StartNext(j, gap);
      StartMonotone(j + 1, k, gap);
    }
  }

  // ---------------------------------------------------------------------
  // Archive records

  /** Size of one archive record: a 4-byte time and an 8-byte meter total. */
  const RecordSize: nat := 12
  /** The interval the archive is kept at, in seconds. */
  const ArchiveInterval: int := 300

  /** One record kept in `archdatalist`: its time and the bytes of its
      total (which the source converts to a float). */
  datatype ArchiveRecord = ArchiveRecord(date: nat, total: seq<bv8>)

  /** The outcome of the record loop over one page of data: the records
      kept, the last time read (`idate`) and whether a gap was wrong. */
  datatype PageScan = PageScan(records: seq<ArchiveRecord>, idate: nat, error: bool)

  /** The date check of smatool.c:1980-1999 for a record with time `date`
      after the time `idate` the loop has so far: the predecessor is
      `idate`, or `date - 300` while `idate` is still 0. */
  predicate DateAccepted(idate: nat, date: nat)
  {
    var prev := if idate > 0 then idate else 0;
    var prev' := if prev == 0 then date - ArchiveInterval else prev;
    date == prev' + ArchiveInterval
  }

  /** Records kept in front of what the rest of a page gives. */
  function Prepend(kept: seq<ArchiveRecord>, rest: PageScan): PageScan
  {
    rest.(records := kept + rest.records)
  }

  /** The record at offset `s` of a page: ConvertStreamtoTime of its first
      four bytes, and its eight total bytes. */
  function RecordAtOffset(data: seq<bv8>, s: nat): ArchiveRecord
    requires s + RecordSize <= |data|
  {
    ArchiveRecord(StreamValue(data[s..s + 4]), data[s + 4..s + RecordSize])
  }

  /** The complete records of a page, in order. A last record cut short by
      the end of the page is left out, because the record index `j` starts
      from 0 on every page. */
  function RecordsOf(data: seq<bv8>): seq<ArchiveRecord>
    decreases |data|
  {
    if |data| < RecordSize then [] else [RecordAtOffset(data, 0)] + RecordsOf(data[RecordSize..])
  }

  /** A page holds |data|/12 complete records, record `k` at offset 12k. */
  lemma {:induction false} RecordsOfIndex(data: seq<bv8>)
    ensures |RecordsOf(data)| == |data| / RecordSize
    ensures forall k :: 0 <= k < |RecordsOf(data)| ==>
      RecordSize * k + RecordSize <= |data| && RecordsOf(data)[k] == RecordAtOffset(data, RecordSize * k)
    decreases |data|
  {
    if |data| >= RecordSize {
      var rest := data[RecordSize..];
      RecordsOfIndex(rest);
      RecordCount(|data|, |rest| / RecordSize + 1, |rest| % RecordSize);
      forall k | 1 <= k < |RecordsOf(data)|
        ensures RecordSize * k + RecordSize <= |data|
        ensures RecordsOf(data)[k] == RecordAtOffset(data, RecordSize * k)
      {
        var m := k - 1;
        var s := RecordSize * m;
        assert RecordsOf(data)[k] == RecordsOf(rest)[m];
        assert s + RecordSize <= |rest| && RecordsOf(rest)[m] == RecordAtOffset(rest, s);
        DropSlice(data, RecordSize, s, s + 4);
        DropSlice(data, RecordSize, s + 4, s + RecordSize);
      }
    } else {
      RecordCount(|data|, 0, |data|);
    }
  }

  /** A slice of the bytes after the first `d`. */
  lemma DropSlice(data: seq<bv8>, d: nat, a: nat, b: nat)
    requires d <= |data| && a <= b <= |data| - d
    ensures data[d..][a..b] == data[d + a..d + b]
  {
  }

  /** A page of `n` complete records and `j` more bytes. */
  lemma PageLength(data: seq<bv8>, n: nat, j: nat)
    requires |data| == RecordSize * n + j && j < RecordSize
    ensures |RecordsOf(data)| == n
  {
    RecordsOfIndex(data);
    RecordCount(|data|, n, j);
  }

  /** The date checks from record `n` on: every record in order, until the
      first whose time does not pass the check against the time before it.
      That record's time is still stored in `idate`. */
  function ScanFrom(recs: seq<ArchiveRecord>, n: nat, idate: nat): PageScan
    decreases |recs| - n
  {
    if n >= |recs| then PageScan([], idate, false)
    else if !DateAccepted(idate, recs[n].date) then PageScan([], recs[n].date, true)
    else Prepend([recs[n]], ScanFrom(recs, n + 1, recs[n].date))
  }

  /** The record loop over a whole page, starting from the time `idate`
      the previous page left. */
  function ScanPage(data: seq<bv8>, idate: nat): PageScan
  {
    ScanFrom(RecordsOf(data), 0, idate)
  }

  /** The record loop of smatool.c:1971-2012 over the `datalen` bytes one
      ReadStream returned, gathering each record in the 1024-byte
      `datarecord`. */
  method ArchivePage(data: seq<bv8>, idate0: nat) returns (records: seq<ArchiveRecord>, idate: nat, error: bool)
    ensures PageScan(records, idate, error) == ScanPage(data, idate0)
  {
    var datarecord := new bv8[1024];
    records := [];
    idate := idate0;
    error := false;
    var j := 0;
    var i := 0;
    ghost var n := 0;
    ghost var whole := ScanPage(data, idate0);
    while i < |data|
      invariant 0 <= j < RecordSize && j <= i <= |data| && i - j == RecordSize * n
      invariant forall k :: 0 <= k < j ==> datarecord[k] == data[RecordSize * n + k]
      invariant whole == Prepend(records, ScanFrom(RecordsOf(data), n, idate))
    {
      Store(datarecord, j, data, i - j);
      j := j + 1;
      if j > 11 {
        var accepted;
        records, idate, accepted := TakeRecord(datarecord, records, idate, data, n, whole);
        if !accepted {
          error := true;
          return;
        }
        j := 0;
        n := n + 1;
      }
      i := i + 1;
    }
    PageLength(data, n, j);
  }

  /** `datarecord[j] = data[i]`, where `i` is `start + j`: the buffer
      holds one byte more of the record that begins at `start`. */
  method Store(datarecord: array<bv8>, j: nat, data: seq<bv8>, start: nat)
    requires j < datarecord.Length && start + j < |data|
    requires forall k :: 0 <= k < j ==> datarecord[k] == data[start + k]
    modifies datarecord
    ensures forall k :: j < k < datarecord.Length ==> datarecord[k] == old(datarecord[k])
    ensures forall k :: 0 <= k <= j ==> datarecord[k] == data[start + k]
  {
    datarecord[j] := data[start + j];
  }

  /** The body of `if (j > 11)` (smatool.c:1976-1999) on the complete
      record in `datarecord`: its time becomes `idate`; it is checked
      against the predecessor `prev_idate`; if it passes it is appended to
      the records. For the loop, the ghost `whole` is the scan of the page
      and `n` the record's place in it. */
  method TakeRecord(datarecord: array<bv8>, records: seq<ArchiveRecord>, idate: nat,
                    ghost data: seq<bv8>, ghost n: nat, ghost whole: PageScan)
    returns (records': seq<ArchiveRecord>, idate': nat, accepted: bool)
    requires datarecord.Length >= RecordSize && RecordSize * n + RecordSize <= |data|
    requires forall k :: 0 <= k < RecordSize ==> datarecord[k] == data[RecordSize * n + k]
    requires whole == Prepend(records, ScanFrom(RecordsOf(data), n, idate))
    ensures idate' == StreamValue(datarecord[..4])
    ensures accepted <==> DateAccepted(idate, idate')
    ensures records' == if accepted then records + [ArchiveRecord(idate', datarecord[4..RecordSize])] else records
    ensures accepted ==> whole == Prepend(records', ScanFrom(RecordsOf(data), n + 1, idate'))
    ensures !accepted ==> whole == PageScan(records', idate', true)
  {
    var prev: int := if idate > 0 then idate else 0;
    idate' := ConvertStream(datarecord[..4], 4);
    assert datarecord[..4][..4] == datarecord[..4];
    if prev == 0 {
      prev := idate' - ArchiveInterval;
    }
    accepted := idate' == prev + ArchiveInterval;
    var record := ArchiveRecord(idate', datarecord[4..RecordSize]);
    RecordStep(datarecord[..], data, n, whole, records, idate, record, accepted);
    records' := if accepted then records + [record] else records;
  }

  /** One pass through `if (j > 11)` seen from the scan: the record the
      buffer holds is record `n` of the page, and the loop's view of the
      scan moves past it or stops at it. */
  lemma RecordStep(buf: seq<bv8>, data: seq<bv8>, n: nat, whole: PageScan, records: seq<ArchiveRecord>, idate: nat,
                   record: ArchiveRecord, accepted: bool)
    requires |buf| >= RecordSize && RecordSize * n + RecordSize <= |data|
    requires forall k :: 0 <= k < RecordSize ==> buf[k] == data[RecordSize * n + k]
    requires record == ArchiveRecord(StreamValue(buf[..4]), buf[4..RecordSize])
    requires accepted <==> DateAccepted(idate, record.date)
    requires whole == Prepend(records, ScanFrom(RecordsOf(data), n, idate))
    ensures accepted ==> whole == Prepend(records + [record], ScanFrom(RecordsOf(data), n + 1, record.date))
    ensures !accepted ==> whole == PageScan(records, record.date, true)
  {
    SameRecord(buf, data, n);
    if accepted {
      RecordKept(RecordsOf(data), n, whole, records, idate);
    } else {
      RecordRejected(RecordsOf(data), n, whole, records, idate);
    }
  }

  /** A record copied into the buffer is record `n` of the page. */
  lemma SameRecord(buf: seq<bv8>, data: seq<bv8>, n: nat)
    requires |buf| >= RecordSize && RecordSize * n + RecordSize <= |data|
    requires forall k :: 0 <= k < RecordSize ==> buf[k] == data[RecordSize * n + k]
    ensures n < |RecordsOf(data)|
    ensures ArchiveRecord(StreamValue(buf[..4]), buf[4..RecordSize]) == RecordsOf(data)[n]
  {
    var s := RecordSize * n;
    RecordsOfIndex(data);
    RecordCount(|data|, n + 1 + (|data| - s - RecordSize) / RecordSize, (|data| - s - RecordSize) % RecordSize);
    assert buf[..4] == data[s..s + 4];
    assert buf[4..RecordSize] == data[s + 4..s + RecordSize];
  }

  /** A page of `n` whole records and `j` more bytes holds `n` records. */
  lemma RecordCount(len: nat, n: nat, j: nat)
    requires len == RecordSize * n + j && j < RecordSize
    ensures len / RecordSize == n
  {
  }

  /** The loop's view of the scan after record `n` passes the date check. */
  lemma RecordKept(recs: seq<ArchiveRecord>, n: nat, whole: PageScan, records: seq<ArchiveRecord>, idate: nat)
    requires n < |recs| && DateAccepted(idate, recs[n].date)
    requires whole == Prepend(records, ScanFrom(recs, n, idate))
    ensures whole == Prepend(records + [recs[n]], ScanFrom(recs, n + 1, recs[n].date))
  {
    PrependTwice(records, [recs[n]], ScanFrom(recs, n + 1, recs[n].date));
  }

  /** The loop's view of the scan after record `n` fails the date check. */
  lemma RecordRejected(recs: seq<ArchiveRecord>, n: nat, whole: PageScan, records: seq<ArchiveRecord>, idate: nat)
    requires n < |recs| && !DateAccepted(idate, recs[n].date)
    requires whole == Prepend(records, ScanFrom(recs, n, idate))
    ensures whole == PageScan(records, recs[n].date, true)
  {
    assert records + [] == records;
  }

  /** Keeping records in two steps is keeping them together. */
  lemma PrependTwice(a: seq<ArchiveRecord>, b: seq<ArchiveRecord>, rest: PageScan)
    ensures Prepend(a, Prepend(b, rest)) == Prepend(a + b, rest)
  {
    assert a + (b + rest.records) == (a + b) + rest.records;
  }

  /** The date check accepts exactly a time 300 s after a nonzero
      predecessor, and any time when there is none yet. */
  lemma DateAcceptedIff(idate: nat, date: nat)
    ensures DateAccepted(idate, date) <==> idate == 0 || date == idate + ArchiveInterval
  {
  }

  /** The time before the record `k` places after record `n`: the
      starting `idate` for the first. */
  function DateBefore(recs: seq<ArchiveRecord>, n: nat, idate: nat, k: nat): nat
    requires n + k <= |recs|
  {
    if k == 0 then idate else recs[n + k - 1].date
  }

  /** What the date checks give from record `n` on: the longest run of
      records that each pass the check against the time before them; an
      error exactly when a record is left after that run, in which case
      that record failed the check and its time is the new `idate`;
      otherwise `idate` is the last time kept. */
  lemma {:induction false} ScanFromSpec(recs: seq<ArchiveRecord>, n: nat, idate: nat)
    requires n <= |recs|
    ensures var r := ScanFrom(recs, n, idate);
      && n + |r.records| <= |recs|
      && (forall k :: 0 <= k < |r.records| ==>
            r.records[k] == recs[n + k] && DateAccepted(DateBefore(recs, n, idate, k), recs[n + k].date))
      && (r.error <==> n + |r.records| < |recs|)
      && (r.error ==> !DateAccepted(DateBefore(recs, n, idate, |r.records|), recs[n + |r.records|].date)
                      && r.idate == recs[n + |r.records|].date)
      && (!r.error ==> r.idate == DateBefore(recs, n, idate, |r.records|))
    decreases |recs| - n
  {
    if n < |recs| && DateAccepted(idate, recs[n].date) {
      var t := ScanFrom(recs, n + 1, recs[n].date);
      var r := ScanFrom(recs, n, idate);
      ScanFromSpec(recs, n + 1, recs[n].date);
      assert r.records == [recs[n]] + t.records;
      forall k | 1 <= k < |r.records|
        ensures r.records[k] == recs[n + k] && DateAccepted(DateBefore(recs, n, idate, k), recs[n + k].date)
      {
        assert r.records[k] == t.records[k - 1];
        assert DateBefore(recs, n + 1, recs[n].date, k - 1) == DateBefore(recs, n, idate, k);
      }
      assert DateBefore(recs, n + 1, recs[n].date, |t.records|) == DateBefore(recs, n, idate, |r.records|);
    }
  }

  /** The same for a page of bytes: the records kept are the page's first
      records, each with the time and total bytes at its offset, each
      passing the date check; the scan stops with an error exactly at the
      first complete record that does not. */
  lemma ScanPageSpec(data: seq<bv8>, idate: nat)
    ensures var r := ScanPage(data, idate);
      && RecordSize * |r.records| <= |data|
      && (forall k :: 0 <= k < |r.records| ==>
            RecordSize * k + RecordSize <= |data|
            && r.records[k] == ArchiveRecord(StreamValue(data[RecordSize * k..RecordSize * k + 4]), data[RecordSize * k + 4..RecordSize * k + RecordSize]))
      && (r.error <==> RecordSize * |r.records| + RecordSize <= |data|)
  {
    var recs := RecordsOf(data);
    RecordsOfIndex(data);
    ScanFromSpec(recs, 0, idate);
    var r := ScanPage(data, idate);
    forall k | 0 <= k < |r.records|
      ensures RecordSize * k + RecordSize <= |data|
      ensures r.records[k] == ArchiveRecord(StreamValue(data[RecordSize * k..RecordSize * k + 4]), data[RecordSize * k + 4..RecordSize * k + RecordSize])
    {
      assert r.records[k] == recs[k];
    }
  }

  /** Consequence: the times kept on one page are 300 s apart, except
      right after a time of 0, and the first is 300 s after the page's
      starting time unless that is 0. */
  lemma ScanPageGaps(data: seq<bv8>, idate: nat)
    ensures var rs := ScanPage(data, idate).records;
      && (|rs| > 0 && idate != 0 ==> rs[0].date == idate + ArchiveInterval)
      && forall k :: 1 <= k < |rs| && rs[k - 1].date != 0 ==> rs[k].date == rs[k - 1].date + ArchiveInterval
  {
    var recs := RecordsOf(data);
    ScanFromSpec(recs, 0, idate);
    var rs := ScanPage(data, idate).records;
    forall k | 1 <= k < |rs| && rs[k - 1].date != 0
      ensures rs[k].date == rs[k - 1].date + ArchiveInterval
    {
      assert DateBefore(recs, 0, idate, k) == rs[k - 1].date;
      DateAcceptedIff(DateBefore(recs, 0, idate, k), rs[k].date);
    }
    if |rs| > 0 {
      DateAcceptedIff(idate, rs[0].date);
    }
  }

  /** A partial record at the end of a page changes nothing. */
  lemma PartialRecordIgnored(data: seq<bv8>, extra: seq<bv8>, idate: nat)
    requires |data| % RecordSize == 0 && |extra| < RecordSize
    ensures ScanPage(data + extra, idate) == ScanPage(data, idate)
  {
    var x := data + extra;
    RecordsOfIndex(x);
    RecordsOfIndex(data);
    RecordCount(|x|, |data| / RecordSize, |extra|);
    forall k | 0 <= k < |data| / RecordSize
      ensures RecordsOf(x)[k] == RecordsOf(data)[k]
    {
      assert x[RecordSize * k..RecordSize * k + 4] == data[RecordSize * k..RecordSize * k + 4];
      assert x[RecordSize * k + 4..RecordSize * k + RecordSize] == data[RecordSize * k + 4..RecordSize * k + RecordSize];
    }
    assert RecordsOf(x) == RecordsOf(data);
  }

  // ---------------------------------------------------------------------
  // The $ARCHIVEDATA1 directive over its pages

  /** The record loop over the successive pages of one `$ARCHIVEDATA1`
      directive: `idate` starts at 0 and is carried from page to page, and
      so is the error flag, which is never cleared. After a page's error the
      next page is checked against the rejected time. */
  function ScanPages(pages: seq<seq<bv8>>, idate: nat, error: bool): PageScan
    decreases |pages|
  {
    if |pages| == 0 then PageScan([], idate, error)
    else
      var p := ScanPage(pages[0], idate);
      Prepend(p.records, ScanPages(pages[1..], p.idate, error || p.error))
  }

  /** The directive's loop `while (finished != 1)` over pages that the
      stream reader has already delivered: each page goes through the
      record loop with the `idate` the previous one left. `error0` is the
      flag as `main` holds it when the directive starts; `main` never
      clears it. */
  method ArchiveData(pages: seq<seq<bv8>>, error0: bool) returns (records: seq<ArchiveRecord>, error: bool)
    ensures ScanPages(pages, 0, error0).records == records
    ensures ScanPages(pages, 0, error0).error == error
    ensures records == ScanPages(pages, 0, false).records
    ensures error <==> error0 || !CleanPages(pages, 0)
  {
    records := [];
    error := error0;
    var idate := 0;
    var n := 0;
    while n < |pages|
      invariant 0 <= n <= |pages|
      invariant ScanPages(pages, 0, error0) == Prepend(records, ScanPages(pages[n..], idate, error))
    {
      var kept, last, bad := ArchivePage(pages[n], idate);
      assert pages[n..][1..] == pages[n + 1..];
      PrependTwice(records, kept, ScanPages(pages[n + 1..], last, error || bad));
      records := records + kept;
      idate := last;
      error := error || bad;
      n := n + 1;
    }
    ErrorCarried(pages, 0, error0);
  }

  /** The flag a directive starts with does not change the records kept,
      and the flag it ends with is set exactly when it was set before or
      some page has a bad gap. */
  lemma {:induction false} ErrorCarried(pages: seq<seq<bv8>>, idate: nat, e: bool)
    ensures ScanPages(pages, idate, e).records == ScanPages(pages, idate, false).records
    ensures ScanPages(pages, idate, e).error <==> e || !CleanPages(pages, idate)
    decreases |pages|
  {
    if |pages| > 0 {
      var p := ScanPage(pages[0], idate);
      ErrorCarried(pages[1..], p.idate, e || p.error);
      ErrorCarried(pages[1..], p.idate, p.error);
    }
  }

  /** Once set, the error flag stays set. */
  lemma {:induction false} ErrorSticks(pages: seq<seq<bv8>>, idate: nat)
    ensures ScanPages(pages, idate, true).error
    decreases |pages|
  {
    if |pages| > 0 {
      ErrorSticks(pages[1..], ScanPage(pages[0], idate).idate);
    }
  }

  /** A directive whose pages are all clean reports no error, and one with
      a page that has a bad gap reports one. */
  lemma {:induction false} ErrorIffSomePage(pages: seq<seq<bv8>>, idate: nat)
    ensures !ScanPages(pages, idate, false).error <==> CleanPages(pages, idate)
    decreases |pages|
  {
    if |pages| > 0 {
      var p := ScanPage(pages[0], idate);
      if p.error {
        ErrorSticks(pages[1..], p.idate);
      } else {
        ErrorIffSomePage(pages[1..], p.idate);
      }
    }
  }

  /** No page has a bad gap, each page starting from the time the one
      before left. */
  predicate CleanPages(pages: seq<seq<bv8>>, idate: nat)
    decreases |pages|
  {
    |pages| == 0 || (!ScanPage(pages[0], idate).error && CleanPages(pages[1..], ScanPage(pages[0], idate).idate))
  }
}
