/** The boot sector's loader: reads consecutive sectors through the BIOS, track by track and segment by segment. */
module DiskLoad {
  import opened Words

  /** One BIOS read: count sectors from (cyl, head, sec), to segment:offset. Sectors of a track are numbered from 1. */
  datatype Read = Read(head: nat, cyl: nat, sec: nat, count: nat, segment: nat, offset: nat)

  /** A call of the BIOS: the read asked for, and its answer, the carry flag and the sectors it has read. */
  datatype Call = Call(read: Read, carry: bool, sectorsRead: nat)

  /** The BIOS disk services. Any call may fail, or read less than it was asked for. */
  class Bios {
    const heads: nat
    const sectors: nat
    ghost var log: seq<Call>

    constructor (heads: nat, sectors: nat)
      ensures this.heads == heads && this.sectors == sectors && log == []
    {
      this.heads, this.sectors, log := heads, sectors, [];
    }

    method ReadSectors(head: nat, cyl: nat, sec: nat, count: nat, segment: nat, offset: nat)
      returns (carry: bool, sectorsRead: nat)
      modifies this
      ensures log == old(log) + [Call(Read(head, cyl, sec, count, segment, offset), carry, sectorsRead)]
    {
      carry, sectorsRead := *, *;
      log := log + [Call(Read(head, cyl, sec, count, segment, offset), carry, sectorsRead)];
    }
  }

  /** One read through the BIOS. It fails if the BIOS says so or has not read all. */
  method LoadLow(bios: Bios, head: nat, cyl: nat, sec: nat, count: nat, segment: nat, offset: nat)
    returns (ok: bool, ghost call: Call)
    modifies bios
    ensures bios.log == old(bios.log) + [call] && call.read == Read(head, cyl, sec, count, segment, offset)
    ensures ok <==> !call.carry && call.sectorsRead == count
  {
    var carry, sectorsRead := bios.ReadSectors(head, cyl, sec, count, segment, offset);
    call := Call(Read(head, cyl, sec, count, segment, offset), carry, sectorsRead);
    ok := !carry && sectorsRead == count;
  }

  /** The reads that calls asked for. */
  function ReadsOf(calls: seq<Call>): (r: seq<Read>)
    ensures |r| == |calls| && forall k :: 0 <= k < |calls| ==> r[k] == calls[k].read
  {
    seq(|calls|, k requires 0 <= k < |calls| => calls[k].read)
  }

  /** The logical number of a read's first sector, and the address its first byte goes to. */
  function FirstSector(r: Read, heads: nat, sectors: nat): int {
    (r.cyl * heads + r.head) * sectors + r.sec - 1
  }

  function Destination(r: Read): nat {
    16 * r.segment + r.offset
  }

  /** The read stays on one track and in one segment, and its operands fit the registers of the BIOS call. */
  predicate ReadOk(r: Read, heads: nat, sectors: nat) {
    && 0 < r.count && 1 <= r.sec && r.sec - 1 + r.count <= sectors && r.head < heads && r.cyl < 0x100
    && r.offset + 512 * r.count <= 0x1_0000 && r.segment < 0x1_0000
  }

  /** The reads take the sectors from `start` to `to` in order, without gap or overlap, each sector to its place: sector
      start + k to base + 512 * k. */
  ghost predicate Chain(log: seq<Read>, to: nat, heads: nat, sectors: nat, start: nat, base: nat) {
    if log == [] then to == start
    else
      var r := log[|log| - 1];
      && ReadOk(r, heads, sectors) && start + r.count <= to && FirstSector(r, heads, sectors) == to - r.count
      && Destination(r) == base + 512 * (to - r.count - start)
      && Chain(log[..|log| - 1], to - r.count, heads, sectors, start, base)
  }

  method Wmin(a: nat, b: nat) returns (r: nat)
    ensures r == if a < b then a else b
  {
    r := if a < b then a else b;
  }

  /** All sectors before `end` lie on cylinders the BIOS call can name. */
  predicate CylindersFit(heads: nat, sectors: nat, end: nat) {
    end <= 0x100 * heads * sectors
  }

  /** The read the loop decides on: the least of what is left of the track, of the request and of the segment. The
      sector is the s-th of a track of cylinder c and head h, and the offset is o sectors into the segment. */
  lemma ReadFits(heads: nat, sectors: nat, cur: nat, end: nat, s: nat, c: nat, h: nat, segment: nat, o: nat, count: nat)
    requires s < sectors && h < heads && cur == s + sectors * (h + heads * c)
    requires cur < end && CylindersFit(heads, sectors, end) && o < 128 && segment < 0x1_0000
    requires count == Least(sectors - s, end - cur, 128 - o)
    ensures var r := Read(h, c, s + 1, count, segment, 512 * o);
      && ReadOk(r, heads, sectors) && FirstSector(r, heads, sectors) == cur && cur + count <= end
      && Longest(r, heads, sectors, end)
  {
    hide CylindersFit;
    BelowEnd(heads, sectors, cur, end);
    CylinderBound(heads, sectors, cur, h + heads * c, s, c, h);
    TrackStart(heads, sectors, c, h);
  }

  lemma BelowEnd(heads: nat, sectors: nat, cur: nat, end: nat)
    requires cur < end && CylindersFit(heads, sectors, end)
    ensures cur < 0x100 * heads * sectors
  {
  }

  lemma TrackStart(heads: nat, sectors: nat, c: nat, h: nat)
    ensures (c * heads + h) * sectors == sectors * (h + heads * c)
  {
  }

  lemma CylinderBound(heads: nat, sectors: nat, cur: nat, track: nat, s: nat, c: nat, h: nat)
    requires cur == s + sectors * track && track == h + heads * c && cur < 0x100 * heads * sectors
    ensures c < 0x100
  {
    Monotone(heads, 0x100, c);
    Monotone(sectors, heads * 0x100, track);
    assert sectors * (heads * 0x100) == 0x100 * heads * sectors;
  }

  lemma Monotone(d: nat, a: nat, b: nat)
    ensures a <= b ==> d * a <= d * b
  {
    assert d * b == d * a + d * (b - a);
  }

  function Least(a: int, b: int, c: int): int {
    var m := if a < b then a else b;
    if m < c then m else c
  }

  /** The read goes on to the end of its track, of its segment or of the request. */
  predicate Longest(r: Read, heads: nat, sectors: nat, end: nat) {
    || r.sec - 1 + r.count == sectors
    || r.offset + 512 * r.count == 0x1_0000
    || FirstSector(r, heads, sectors) + r.count == end
  }

  /** While anything is left to load, segment:offset is the address of what comes next. */
  predicate Placed(segment: nat, offset: nat, address: nat, end: nat) {
    address < end ==> 16 * segment + offset == address && segment < 0x1_0000
  }

  /** The place that follows a read of count sectors: after a full segment, the start of the one 4096 further on. */
  lemma NextPlace(segment: nat, offset: nat, count: nat, address: nat, end: nat)
    requires Placed(segment, offset, address, end) && address < end <= 0x10_0000 && address + 512 * count <= end
    requires offset % 512 == 0 && offset + 512 * count <= 0x1_0000
    ensures 16 * segment + offset == address
    ensures var next := 512 * count + offset;
      && next % 0x1_0000 % 512 == 0
      && Placed(if next >= 0x1_0000 then (segment + 4096) % 0x1_0000 else segment, next % 0x1_0000,
             address + 512 * count, end)
  {
    var o, _ := Divide(offset, 512);
    var next := 512 * count + offset;
    DivModUnique(next, 512, o + count, 0);
  }

  lemma PlacedAt(segment: nat, offset: nat, end: nat)
    requires segment < 0x1_0000
    ensures Placed(segment, offset, 16 * segment + offset, end)
  {
  }

  lemma PlacedHere(segment: nat, offset: nat, address: nat, end: nat)
    requires Placed(segment, offset, address, end) && address < end
    ensures 16 * segment + offset == address && segment < 0x1_0000
  {
  }

  /** All calls have read what they were asked for. */
  predicate AllRead(calls: seq<Call>) {
    forall k :: 0 <= k < |calls| ==> !calls[k].carry && calls[k].sectorsRead == calls[k].read.count
  }

  /** The calls ask for the next sectors each time, and for as many as they may. */
  ghost predicate Asked(calls: seq<Call>, heads: nat, sectors: nat, end: nat) {
    forall k :: 0 <= k < |calls| ==>
                  ReadOk(calls[k].read, heads, sectors) && Longest(calls[k].read, heads, sectors, end)
  }

  /** Where the next sector is on the disk, and how many to read from there. */
  method NextRead(bios: Bios, curlsec: nat, endlsec: nat, ghost segment: nat, offset: nat)
    returns (curhead: nat, curcyl: nat, curpsec: nat, toRead: nat)
    requires bios.heads > 0 && bios.sectors > 0 && curlsec < endlsec && CylindersFit(bios.heads, bios.sectors, endlsec)
    requires offset % 512 == 0 && offset < 0x1_0000 && segment < 0x1_0000
    ensures var r := Read(curhead, curcyl, curpsec, toRead, segment, offset);
      && ReadOk(r, bios.heads, bios.sectors) && FirstSector(r, bios.heads, bios.sectors) == curlsec
      && Longest(r, bios.heads, bios.sectors, endlsec)
    ensures 0 < toRead && curlsec + toRead <= endlsec && offset + 512 * toRead <= 0x1_0000
  {
    hide FirstSector, CylindersFit, Longest;
    curpsec := curlsec % bios.sectors + 1;
    curcyl := curlsec / bios.sectors / bios.heads;
    curhead := curlsec / bios.sectors % bios.heads;
    toRead := Wmin(bios.sectors - curpsec + 1, endlsec - curlsec);
    toRead := Wmin(toRead, (0x1_0000 - offset) / 512);
    ghost var track, s := Divide(curlsec, bios.sectors);
    ghost var c, h := Divide(track, bios.heads);
    ghost var o, _ := Divide(offset, 512);
    ReadFits(bios.heads, bios.sectors, curlsec, endlsec, s, c, h, segment, o, toRead);
  }

  /** Loads lengthlsec sectors from startlsec to segment0:offset0. It fails when a call does, and only then; the sectors
      before `done` are loaded by the calls that have not failed. */
  method Load(bios: Bios, startlsec: nat, lengthlsec: nat, segment0: nat, offset0: nat) returns (ok: bool,
      ghost done: nat, ghost calls: seq<Call>)
    requires 0 < bios.heads <= 0x100 && 0 < bios.sectors < 64
    requires startlsec + lengthlsec < 0x1_0000 && CylindersFit(bios.heads, bios.sectors, startlsec + lengthlsec)
    requires offset0 % 512 == 0 && offset0 < 0x1_0000 && segment0 < 0x1_0000
    requires 16 * segment0 + offset0 + 512 * lengthlsec <= 0x10_0000
    modifies bios
    ensures bios.log == old(bios.log) + calls && Asked(calls, bios.heads, bios.sectors, startlsec + lengthlsec)
    ensures startlsec <= done <= startlsec + lengthlsec && (ok <==> done == startlsec + lengthlsec)
    ensures !ok <==> |calls| > 0 &&
                     var last := calls[|calls| - 1]; last.carry || last.sectorsRead != last.read.count
    ensures var good := if ok then calls else calls[..|calls| - 1];
      && AllRead(good)
      && Chain(ReadsOf(good), done, bios.heads, bios.sectors, startlsec, 16 * segment0 + offset0)
    ensures !ok ==> FirstSector(calls[|calls| - 1].read, bios.heads, bios.sectors) == done
    ensures !ok ==> Destination(calls[|calls| - 1].read) == 16 * segment0 + offset0 + 512 * (done - startlsec)
  {
    hide FirstSector, ReadOk, CylindersFit, Chain, Placed, Longest, ReadsOf, AllRead, Asked;
    var endlsec := startlsec + lengthlsec;
    var curlsec := startlsec;
    var segment: nat, offset: nat := segment0, offset0;
    ghost var base := 16 * segment0 + offset0;
    calls := [];
    ChainNothing(startlsec, bios.heads, bios.sectors, base);
    NoCalls(bios.heads, bios.sectors, endlsec);
    PlacedAt(segment, offset, base + 512 * lengthlsec);
    while curlsec < endlsec
      invariant startlsec <= curlsec <= endlsec && offset % 512 == 0 && offset < 0x1_0000
      invariant Placed(segment, offset, base + 512 * (curlsec - startlsec), base + 512 * (endlsec - startlsec))
      invariant bios.log == old(bios.log) + calls && AllRead(calls)
      invariant Asked(calls, bios.heads, bios.sectors, endlsec)
      invariant Chain(ReadsOf(calls), curlsec, bios.heads, bios.sectors, startlsec, base)
      decreases endlsec - curlsec
    {
      PlacedHere(segment, offset, base + 512 * (curlsec - startlsec), base + 512 * (endlsec - startlsec));
      var curhead, curcyl, curpsec, toRead := NextRead(bios, curlsec, endlsec, segment, offset);
      ghost var call, before := Call(Read(0, 0, 0, 0, 0, 0), true, 0), calls;
      ok, call := LoadLow(bios, curhead, curcyl, curpsec, toRead, segment, offset);
      calls := before + [call];
      CallAdded(before, call, bios.heads, bios.sectors, endlsec);
      if !ok {
        return false, curlsec, calls;
      }
      ChainAdd(ReadsOf(before), call.read, curlsec, bios.heads, bios.sectors, startlsec, base);
      NextPlace(segment, offset, toRead, base + 512 * (curlsec - startlsec), base + 512 * (endlsec - startlsec));
      curlsec := curlsec + toRead;
      var next := 512 * toRead + offset;
      offset := next % 0x1_0000;
      if next >= 0x1_0000 {
        segment := (segment + 4096) % 0x1_0000;
      }
    }
    if |calls| > 0 {
      AllReadLast(calls);
    }
    return true, curlsec, calls;
  }

  lemma NoCalls(heads: nat, sectors: nat, end: nat)
    ensures ReadsOf([]) == [] && AllRead([]) && Asked([], heads, sectors, end)
  {
  }

  lemma CallAdded(calls: seq<Call>, call: Call, heads: nat, sectors: nat, end: nat)
    requires Asked(calls, heads, sectors, end) && ReadOk(call.read, heads, sectors)
    requires Longest(call.read, heads, sectors, end)
    ensures var all := calls + [call];
      && Asked(all, heads, sectors, end) && ReadsOf(all) == ReadsOf(calls) + [call.read] && all[..|all| - 1] == calls
      && (AllRead(calls) && !call.carry && call.sectorsRead == call.read.count ==> AllRead(all))
  {
    hide ReadOk, Longest;
  }

  lemma AllReadLast(calls: seq<Call>)
    requires AllRead(calls) && |calls| > 0
    ensures var last := calls[|calls| - 1]; !last.carry && last.sectorsRead == last.read.count
  {
  }

  lemma ChainNothing(start: nat, heads: nat, sectors: nat, base: nat)
    ensures Chain([], start, heads, sectors, start, base)
  {
  }

  lemma ChainAdd(log: seq<Read>, r: Read, cur: nat, heads: nat, sectors: nat, start: nat, base: nat)
    requires Chain(log, cur, heads, sectors, start, base) && start <= cur
    requires ReadOk(r, heads, sectors) && FirstSector(r, heads, sectors) == cur
    requires Destination(r) == base + 512 * (cur - start)
    ensures Chain(log + [r], cur + r.count, heads, sectors, start, base)
  {
    hide ReadOk, FirstSector;
    var all := log + [r];
    assert all[..|all| - 1] == log && all[|all| - 1] == r;
  }

  /** Reads of a chain, one for each sector: the sector is on the read's track, and lands where it should. */
  lemma {:induction false} ChainSector(log: seq<Read>, start: nat, to: nat, heads: nat, sectors: nat, base: nat, s: nat)
    returns (i: nat)
    requires Chain(log, to, heads, sectors, start, base) && start <= s < to
    ensures i < |log|
    ensures var r := log[i]; var first := FirstSector(r, heads, sectors);
      && ReadOk(r, heads, sectors) && first <= s < first + r.count
      && Destination(r) + 512 * (s - first) == base + 512 * (s - start)
    ensures forall j :: 0 <= j < |log| && j != i ==>
              var first := FirstSector(log[j], heads, sectors); !(first <= s < first + log[j].count)
    decreases |log|
  {
    hide FirstSector, ReadOk;
    var last := |log| - 1;
    var r := log[last];
    if s >= to - r.count {
      i := last;
      ChainBelow(log[..last], start, to - r.count, heads, sectors, base);
    } else {
      i := ChainSector(log[..last], start, to - r.count, heads, sectors, base, s);
      assert log[..last][i] == log[i];
    }
    forall j | 0 <= j < |log| && j != i
      ensures var first := FirstSector(log[j], heads, sectors); !(first <= s < first + log[j].count)
    {
      if j < last {
        assert log[..last][j] == log[j];
      }
    }
  }

  lemma {:induction false} ChainBelow(log: seq<Read>, start: nat, to: nat, heads: nat, sectors: nat, base: nat)
    requires Chain(log, to, heads, sectors, start, base)
    ensures forall j :: 0 <= j < |log| ==> FirstSector(log[j], heads, sectors) + log[j].count <= to
    decreases |log|
  {
    hide FirstSector, ReadOk;
    if log == [] {
    } else {
      var last := |log| - 1;
      ChainBelow(log[..last], start, to - log[last].count, heads, sectors, base);
      forall j | 0 <= j < |log|
        ensures FirstSector(log[j], heads, sectors) + log[j].count <= to
      {
        if j < last {
          assert log[..last][j] == log[j];
        }
      }
    }
  }
}
