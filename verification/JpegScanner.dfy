/** The scanner that finds the scans of a progressive JPEG image while it is being downloaded. */
module JpegScanning {
  import opened Basics

  /** The two bytes of a start of scan marker. */
  predicate StartOfScan(data: seq<byte>, i: int) {
    0 <= i < |data| - 1 && data[i] == 0xFF && data[i + 1] == 0xDA
  }

  /** Where the scans start that begin between two positions. */
  ghost function Scans(data: seq<byte>, from: int, to: int): set<int> {
    set i | from <= i < to && StartOfScan(data, i)
  }

  ghost function AllScans(data: seq<byte>): set<int> {
    Scans(data, 0, |data| - 1)
  }

  /** The position from which a scanner that has seen the data goes on: the last byte may be half a marker. */
  function Resume(data: seq<byte>): nat {
    if |data| < 2 then 0 else |data| - 1
  }

  /** The last of the scans, or zero when there are none. */
  ghost predicate IsLast(last: int, scans: set<int>) {
    if scans == {} then last == 0 else last in scans && forall i :: i in scans ==> i <= last
  }

  lemma ScansNext(data: seq<byte>, from: int, to: int)
    requires from <= to
    ensures Scans(data, from, to + 1) == Scans(data, from, to) + (if StartOfScan(data, to) then {to} else {})
    ensures |Scans(data, from, to + 1)| == |Scans(data, from, to)| + if StartOfScan(data, to) then 1 else 0
  {
    assert to !in Scans(data, from, to);
  }

  /** More data leaves the scans found so far, and has others only from the point where the scanner goes on. */
  lemma ScansExtend(before: seq<byte>, data: seq<byte>)
    requires before <= data
    ensures var found, more := AllScans(before), Scans(data, Resume(before), |data| - 1);
            && AllScans(data) == found + more && found !! more && |AllScans(data)| == |found| + |more|
            && forall i, j :: i in found && j in more ==> i < j
  {
    var found, more := AllScans(before), Scans(data, Resume(before), |data| - 1);
    assert found !! more;
    assert AllScans(data) == found + more;
  }

  /** With a second scan, the last one starts at the third byte or later, and cutting it off leaves all others. */
  lemma CutLast(data: seq<byte>, last: int)
    requires |AllScans(data)| > 1 && IsLast(last, AllScans(data))
    ensures 2 <= last < |data| && AllScans(data[..last]) == AllScans(data) - {last}
  {
    var scans, cut := AllScans(data), data[..last];
    assert scans - {last} == {} ==> scans == {last};
    var i :| i in scans - {last};
    assert StartOfScan(data, i) && StartOfScan(data, last) && i < last;
    forall j | j in scans && j != last ensures j in AllScans(cut) {
      assert StartOfScan(data, j);
    }
    forall j | j in AllScans(cut) ensures j in scans {
      assert StartOfScan(data, j);
    }
  }

  class Scanner {
    var numberOfScans: nat
    var lastStartOfScan: nat
    var scannedIndex: int

    /** The scanner knows what a single scan of the data finds. */
    ghost predicate HasScanned(data: seq<byte>)
      reads this
    {
      && scannedIndex + 1 == Resume(data)
      && numberOfScans == |AllScans(data)| && IsLast(lastStartOfScan, AllScans(data))
    }

    constructor ()
      ensures HasScanned([]) && scannedIndex == -1
    {
      numberOfScans, lastStartOfScan, scannedIndex := 0, 0, -1;
    }

    /** scan(_:) for any data, whether or not it continues what was scanned before. */
    method Scan(data: seq<byte>) returns (end: Option<int>)
      requires -1 <= scannedIndex
      modifies this
      ensures var start := old(scannedIndex) + 1;
              var found := Scans(data, start, |data| - 1);
              && scannedIndex == (if start < |data| - 1 then |data| - 2 else old(scannedIndex))
              && numberOfScans == old(numberOfScans) + |found|
              && (if found == {} then lastStartOfScan == old(lastStartOfScan) else IsLast(lastStartOfScan, found))
              && end == if found != {} && numberOfScans > 1 && lastStartOfScan > 0
                        then Some(lastStartOfScan - 1) else None
    {
      if scannedIndex + 1 >= |data| {
        return None;
      }
      var index := scannedIndex + 1;
      ghost var start := index;
      var number := numberOfScans;
      assert Scans(data, start, start) == {};
      while index < |data| - 1
        invariant start <= index && (start <= |data| - 1 ==> index <= |data| - 1)
        invariant numberOfScans == old(numberOfScans)
        invariant scannedIndex == index - 1
        invariant number == numberOfScans + |Scans(data, start, index)|
        invariant if Scans(data, start, index) == {} then lastStartOfScan == old(lastStartOfScan)
                  else IsLast(lastStartOfScan, Scans(data, start, index))
      {
        ScansNext(data, start, index);
        scannedIndex := index;
        if data[index] == 0xFF && data[index + 1] == 0xDA {
          lastStartOfScan := index;
          number := number + 1;
        }
        index := index + 1;
      }
      if number <= numberOfScans {
        return None;
      }
      numberOfScans := number;
      if numberOfScans > 1 && lastStartOfScan > 0 {
        return Some(lastStartOfScan - 1);
      }
      return None;
    }

    /**
     decodePartiallyDownloadedData(_:), which is given ever more of the same image: the part of it that
     is decoded as a preview. After any chain of calls the scanner knows as much as after one scan, and
     there is a preview whenever a scan has begun since the last call and another one came before it.
     The preview ends where the last scan starts.
     */
    method Preview(ghost before: seq<byte>, data: seq<byte>) returns (preview: Option<seq<byte>>)
      requires HasScanned(before) && before <= data
      modifies this
      ensures HasScanned(data)
      ensures preview.Some? <==> |AllScans(data)| > |AllScans(before)| && |AllScans(data)| > 1
      ensures preview.Some? ==>
                && preview.value <= data && 2 <= |preview.value| < |data|
                && AllScans(preview.value) == AllScans(data) - {|preview.value|}
                && IsLast(|preview.value|, AllScans(data))
    {
      ScansExtend(before, data);
      var end := Scan(data);
      assert HasScanned(data);
      if |AllScans(data)| > 1 { CutLast(data, lastStartOfScan); }
      if end.Some? && end.value > 0 {
        return Some(data[..end.value + 1]);
      }
      return None;
    }
  }

  /** Data that comes in chunks is scanned as if it had come in one piece. */
  method ScanChunks(chunks: seq<seq<byte>>) returns (number: nat, last: nat)
    requires forall i :: 0 <= i < |chunks| - 1 ==> chunks[i] <= chunks[i + 1]
    ensures var data := if chunks == [] then [] else chunks[|chunks| - 1];
            number == |AllScans(data)| && IsLast(last, AllScans(data))
  {
    var scanner := new Scanner();
    ghost var data: seq<byte> := [];
    for i := 0 to |chunks|
      invariant scanner.HasScanned(data) && fresh(scanner)
      invariant data == if i == 0 then [] else chunks[i - 1]
    {
      assert data <= chunks[i];
      var _ := scanner.Preview(data, chunks[i]);
      data := chunks[i];
    }
    return scanner.numberOfScans, scanner.lastStartOfScan;
  }
}
