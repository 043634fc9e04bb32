/**
 * What the whole operations of the store do to the disk and the memory, field by field, apart
 * from the path of events that they take; and what replaying the manifest and the log restores.
 */
module Effects {
  import opened Encoding
  import opened Options
  import opened Versions
  import opened Layers
  import opened Compaction
  import opened Machine
  import opened Safety
  import opened Runs
  import opened Jobs

  /** `m` is the greatest sequence in front of the table's chains, 0 if there is none. */
  ghost predicate GreatestFront(t: Table, m: nat)
  {
    && (forall k :: k in t && t[k] != [] ==> t[k][0].sequence <= m)
    && (m == 0 || exists k :: k in t && t[k] != [] && t[k][0].sequence == m)
  }

  /** The segment of a table: the given number, the greatest front as the maximum, and all versions, each key's
      newest first. */
  ghost predicate WrittenOut(t: Table, id: nat, seg: Seg)
  {
    && seg.id == id && GreatestFront(t, seg.maxSeq) && seg.table.Keys == t.Keys
    && forall k :: k in t ==>
         && multiset(seg.table[k]) == multiset(t[k])
         && forall i, j :: 0 <= i < j < |seg.table[k]| ==> seg.table[k][i].sequence >= seg.table[k][j].sequence
  }

  // -------------------------------------------------------------------------
  // Flush
  // -------------------------------------------------------------------------

  /** The oldest frozen table has become the front segment, under the next number; its file and its record, synced,
      are all that is new on the disk. */
  ghost predicate OldestFlushed(s: State, s': State)
  {
    && s.frozen != [] && s'.segments != [] && s'.segments[1..] == s.segments
    && WrittenOut(s.frozen[0], s.nextSegId, s'.segments[0])
    && s'.frozen == s.frozen[1..] && s'.active == s.active && s'.nextSegId == s.nextSegId + 1
    && s'.nextSequence == s.nextSequence && s'.job == s.job
    && s'.disk.wal == s.disk.wal
    && s'.disk.manifest == s.disk.manifest + [AddSegment(s.nextSegId, s'.segments[0].maxSeq)]
    && s'.disk.synced == |s'.disk.manifest|
    && s'.disk.files == s.disk.files[s.nextSegId := s'.segments[0]]
  }

  lemma FlushEffect(s: State, s': State)
    requires s.frozen != [] && Path(s, MoveEvents(1, false), s')
    ensures OldestFlushed(s, s')
  {
    var s1, s2, s3, s4 := MoveSteps(s, 1, false, s');
    hide WriteSegmentsStep;
    hide RegisterStep;
    hide SyncStep;
    hide PublishStep;
    hide Path;
    var segs := MoveEnds(s, 1, false, s1, s2, s3, s4, s');
    hide SegmentsFor;
    FlushedIs(s, segs);
  }

  lemma FlushedIs(s: State, segs: seq<Seg>)
    requires s.frozen != [] && s.job == Idle && SegmentsFor(s.frozen[..1], s.nextSegId, segs)
    ensures OldestFlushed(s, MoveEnd(s, 1, false, segs))
  {
    IsWrittenOut(s.frozen[..1], s.nextSegId, segs, 0);
    OneSegment(segs, s.segments, s.disk.files);
    hide WrittenOut;
    hide SegmentsFor;
    hide Boundary;
    hide Stack;
    hide FilesOf;
    assert AddRecords(segs) == [AddSegment(s.nextSegId, segs[0].maxSeq)];
  }

  lemma OneSegment(segs: seq<Seg>, segments: seq<Seg>, files: map<nat, Seg>)
    requires |segs| == 1
    ensures Stack(segs, segments) == [segs[0]] + segments && files + FilesOf(segs) == files[segs[0].id := segs[0]]
  {
    assert segs == [segs[0]] && segs[1..] == [] && segs[..0] == [];
    assert FilesOf(segs) == map[segs[0].id := segs[0]];
  }

  lemma IsWrittenOut(tables: seq<Table>, first: nat, segs: seq<Seg>, i: nat)
    requires SegmentsFor(tables, first, segs) && i < |tables|
    ensures |segs| == |tables| && WrittenOut(tables[i], first + i, segs[i]) && segs[i].id == first + i
  {
    assert SortedVersion(segs[i].table, tables[i]);
    assert segs[i].maxSeq == FrontMax(tables[i]);
  }

  // -------------------------------------------------------------------------
  // Checkpoint
  // -------------------------------------------------------------------------

  /** `b` is the greatest maximum that the segments declare, 0 if there is none. */
  ghost predicate GreatestDeclared(segs: seq<Seg>, b: nat)
  {
    (forall i :: 0 <= i < |segs| ==> segs[i].maxSeq <= b) && (b == 0 || exists i :: 0 <= i < |segs| && segs[i].maxSeq == b)
  }

  /** `kept` is the operations of the log above `b`, all of them, in the order they stood. */
  ghost predicate KeptAbove(wal: History, b: nat, kept: History)
  {
    exists places: seq<nat> :: PlacesAbove(wal, b, kept, places)
  }

  ghost predicate PlacesAbove(wal: History, b: nat, kept: History, places: seq<nat>)
  {
    && |places| == |kept|
    && (forall i, j :: 0 <= i < j < |places| ==> places[i] < places[j])
    && (forall i :: 0 <= i < |places| ==> places[i] < |wal| && kept[i] == wal[places[i]])
    && forall j: nat :: j < |wal| ==> (j in places <==> wal[j].sequence > b)
  }

  lemma {:induction false} KeepPlaces(wal: History, b: nat) returns (places: seq<nat>)
    ensures PlacesAbove(wal, b, KeepAbove(wal, b), places)
  {
    if wal == [] {
      places := [];
    } else {
      var n := |wal| - 1;
      var front := KeepPlaces(wal[..n], b);
      KeepLast(wal, b);
      OneMorePlace(wal, b, KeepAbove(wal[..n], b), front);
      places := front + if wal[n].sequence > b then [n] else [];
      hide *;
    }
  }

  lemma OneMorePlace(wal: History, b: nat, kept: History, places: seq<nat>)
    requires wal != [] && PlacesAbove(wal[..|wal| - 1], b, kept, places)
    ensures var n := |wal| - 1;
            var above := wal[n].sequence > b;
            PlacesAbove(wal, b, kept + if above then [wal[n]] else [], places + if above then [n] else [])
  {
    var n := |wal| - 1;
    if wal[n].sequence > b {
      AddPlace(wal, b, kept, places);
    } else {
      assert kept + [] == kept && places + [] == places;
      forall i | 0 <= i < |places|
        ensures kept[i] == wal[places[i]]
      {
        assert kept[i] == wal[..n][places[i]];
      }
      forall j: nat | j < |wal|
        ensures j in places <==> wal[j].sequence > b
      {
        if j < n {
          assert wal[..n][j] == wal[j];
        }
      }
    }
  }

  lemma AddPlace(wal: History, b: nat, kept: History, places: seq<nat>)
    requires wal != [] && PlacesAbove(wal[..|wal| - 1], b, kept, places) && wal[|wal| - 1].sequence > b
    ensures PlacesAbove(wal, b, kept + [wal[|wal| - 1]], places + [|wal| - 1])
  {
    var n := |wal| - 1;
    forall i | 0 <= i < |places|
      ensures kept[i] == wal[places[i]]
    {
      assert kept[i] == wal[..n][places[i]];
    }
    forall j: nat | j < n
      ensures j in places <==> wal[j].sequence > b
    {
      assert wal[..n][j] == wal[j];
    }
  }

  lemma {:induction false} KeepLast(wal: History, b: nat)
    requires wal != []
    ensures var n := |wal| - 1; KeepAbove(wal, b) == KeepAbove(wal[..n], b) + if wal[n].sequence > b then [wal[n]] else []
    decreases |wal|
  {
    var n := |wal| - 1;
    if n > 0 {
      KeepLast(wal[1..], b);
      assert wal[1..][..n - 1] == wal[..n][1..];
    }
  }

  lemma KeepIsKept(wal: History, b: nat)
    ensures KeptAbove(wal, b, KeepAbove(wal, b))
  {
    var places := KeepPlaces(wal, b);
  }

  /** The segments' files have joined the others, and nothing else has changed. */
  ghost predicate FilesAdded(files: map<nat, Seg>, segs: seq<Seg>, files': map<nat, Seg>)
  {
    && (forall i :: 0 <= i < |segs| ==> segs[i].id in files' && files'[segs[i].id] == segs[i])
    && (forall id :: id in files' ==> id in files || exists i :: 0 <= i < |segs| && segs[i].id == id)
    && forall id :: id in files ==>
         id in files' && (files'[id] == files[id] || exists i :: 0 <= i < |segs| && segs[i].id == id)
  }

  /** One ADD record for each segment, in order, has been appended, and then the boundary. */
  ghost predicate Recorded(m: Manifest, segs: seq<Seg>, b: nat, m': Manifest)
  {
    && |m'| == |m| + |segs| + 1 && m'[..|m|] == m && m'[|m'| - 1] == SetWalCheckpoint(b)
    && forall i :: 0 <= i < |segs| ==> m'[|m| + i] == AddSegment(segs[i].id, segs[i].maxSeq)
  }

  /** One segment for each table, under consecutive numbers. */
  ghost predicate EachWrittenOut(tables: seq<Table>, first: nat, segs: seq<Seg>)
  {
    |segs| == |tables| && forall i :: 0 <= i < |segs| ==> WrittenOut(tables[i], first + i, segs[i])
  }

  /** The segments stand in front of the others, the last of them first. */
  ghost predicate InFront(segs: seq<Seg>, below: seq<Seg>, r: seq<Seg>)
  {
    && |r| == |segs| + |below| && r[|segs|..] == below
    && forall i :: 0 <= i < |segs| ==> r[|segs| - 1 - i] == segs[i]
  }

  /** Every table of memory, the active one last, has become one of the segments, under the next numbers and the
      newest in front; their files and records, synced, are all that is new on the disk, and the log has kept what
      lies above them all. */
  ghost predicate AllWrittenOut(s: State, segs: seq<Seg>, b: nat, s': State)
  {
    && EachWrittenOut(s.frozen + [s.active], s.nextSegId, segs)
    && s'.frozen == [] && s'.active == map[] && s'.nextSegId == s.nextSegId + |segs| && s'.nextSequence == s.nextSequence
    && s'.job == Idle
    && InFront(segs, s.segments, s'.segments)
    && FilesAdded(s.disk.files, segs, s'.disk.files)
    && Recorded(s.disk.manifest, segs, b, s'.disk.manifest) && s'.disk.synced == |s'.disk.manifest|
    && GreatestDeclared(segs, b) && KeptAbove(s.disk.wal, b, s'.disk.wal)
  }

  ghost predicate Emptied(s: State, s': State)
  {
    exists segs, b :: AllWrittenOut(s, segs, b, s')
  }

  lemma {:induction false} FilesJoin(files: map<nat, Seg>, segs: seq<Seg>)
    requires DistinctIds(segs)
    ensures FilesAdded(files, segs, files + FilesOf(segs))
  {
    if segs != [] {
      var n := |segs| - 1;
      FilesJoin(files, segs[..n]);
      assert files + FilesOf(segs) == (files + FilesOf(segs[..n]))[segs[n].id := segs[n]];
      hide FilesOf;
      hide FilesAdded;
      OneMoreFile(files, segs, files + FilesOf(segs[..n]));
    }
  }

  lemma OneMoreFile(files: map<nat, Seg>, segs: seq<Seg>, before: map<nat, Seg>)
    requires segs != [] && DistinctIds(segs) && FilesAdded(files, segs[..|segs| - 1], before)
    ensures FilesAdded(files, segs, before[segs[|segs| - 1].id := segs[|segs| - 1]])
  {
    var n := |segs| - 1;
    var after := before[segs[n].id := segs[n]];
    forall i | 0 <= i < |segs|
      ensures segs[i].id in after && after[segs[i].id] == segs[i]
    {
      if i < n {
        assert segs[..n][i] == segs[i];
      }
    }
    forall id | id in before && id != segs[n].id
      ensures id in files || exists i :: 0 <= i < |segs| && segs[i].id == id
      ensures id in files ==> before[id] == files[id] || exists i :: 0 <= i < |segs| && segs[i].id == id
    {
      if i :| 0 <= i < |segs[..n]| && segs[..n][i].id == id {
        assert segs[i].id == id;
      }
    }
  }

  lemma CheckpointEffect(s: State, n: nat, s': State)
    requires Path(s, CheckpointEvents(n), s')
    ensures Emptied(s, s')
  {
    var f, m := CheckpointSteps(s, n, s');
    var s1, s2, s3, s4 := MoveSteps(f, n, true, m);
    hide WriteSegmentsStep;
    hide RegisterStep;
    hide SyncStep;
    hide PublishStep;
    hide Path;
    assert n == |f.frozen|;
    var segs := MoveEnds(f, n, true, s1, s2, s3, s4, m);
    hide SegmentsFor;
    hide Emptied;
    hide KeepAbove;
    hide Boundary;
    hide Stack;
    hide FilesOf;
    assert f.frozen[..n] == s.frozen + [s.active];
    CheckpointIs(s, segs);
    assert s' == CheckpointEnd(s, segs);
  }

  lemma CheckpointFields(s: State, segs: seq<Seg>)
    ensures var b, s' := Boundary(segs), CheckpointEnd(s, segs);
            && s'.frozen == [] && s'.active == map[] && s'.nextSegId == s.nextSegId + |segs|
            && s'.nextSequence == s.nextSequence && s'.job == Idle && s'.segments == Stack(segs, s.segments)
            && s'.disk.wal == KeepAbove(s.disk.wal, b) && s'.disk.files == s.disk.files + FilesOf(segs)
            && s'.disk.synced == |s'.disk.manifest| && Recorded(s.disk.manifest, segs, b, s'.disk.manifest)
  {
    AreRecorded(s.disk.manifest, segs, Boundary(segs));
    hide Boundary;
    hide FilesOf;
    hide Stack;
    hide KeepAbove;
    hide AddRecords;
    hide Recorded;
    var tables := s.frozen + [s.active];
    assert tables[|tables|..] == [];
  }

  lemma CheckpointParts(s: State, segs: seq<Seg>)
    requires SegmentsFor(s.frozen + [s.active], s.nextSegId, segs)
    ensures EachWrittenOut(s.frozen + [s.active], s.nextSegId, segs) && InFront(segs, s.segments, Stack(segs, s.segments))
    ensures FilesAdded(s.disk.files, segs, s.disk.files + FilesOf(segs)) && GreatestDeclared(segs, Boundary(segs))
    ensures KeptAbove(s.disk.wal, Boundary(segs), KeepAbove(s.disk.wal, Boundary(segs)))
  {
    AllAreWrittenOut(s.frozen + [s.active], s.nextSegId, segs);
    hide *;
    FilesJoin(s.disk.files, segs);
    BoundaryIsGreatest(segs);
    KeepIsKept(s.disk.wal, Boundary(segs));
    NewestInFront(segs, s.segments);
  }

  lemma CheckpointIs(s: State, segs: seq<Seg>)
    requires SegmentsFor(s.frozen + [s.active], s.nextSegId, segs)
    ensures Emptied(s, CheckpointEnd(s, segs))
  {
    CheckpointFields(s, segs);
    CheckpointParts(s, segs);
    PartsAre(s, segs, Boundary(segs), CheckpointEnd(s, segs));
    hide *;
  }

  lemma PartsAre(s: State, segs: seq<Seg>, b: nat, s': State)
    requires EachWrittenOut(s.frozen + [s.active], s.nextSegId, segs)
    requires s'.frozen == [] && s'.active == map[] && s'.nextSegId == s.nextSegId + |segs|
    requires s'.nextSequence == s.nextSequence && s'.job == Idle && InFront(segs, s.segments, s'.segments)
    requires FilesAdded(s.disk.files, segs, s'.disk.files) && GreatestDeclared(segs, b) && KeptAbove(s.disk.wal, b, s'.disk.wal)
    requires s'.disk.synced == |s'.disk.manifest| && Recorded(s.disk.manifest, segs, b, s'.disk.manifest)
    ensures Emptied(s, s')
  {
    assert AllWrittenOut(s, segs, b, s');
    hide *;
  }

  lemma AllAreWrittenOut(tables: seq<Table>, first: nat, segs: seq<Seg>)
    requires SegmentsFor(tables, first, segs)
    ensures EachWrittenOut(tables, first, segs) && DistinctIds(segs)
  {
    forall i | 0 <= i < |segs|
      ensures WrittenOut(tables[i], first + i, segs[i])
    {
      IsWrittenOut(tables, first, segs, i);
    }
  }

  lemma BoundaryIsGreatest(segs: seq<Seg>)
    ensures GreatestDeclared(segs, Boundary(segs))
  {
    BoundaryAbove(segs);
    BoundaryAttained(segs);
  }

  lemma AreRecorded(m: Manifest, segs: seq<Seg>, b: nat)
    ensures Recorded(m, segs, b, m + (AddRecords(segs) + [SetWalCheckpoint(b)]))
  {
  }

  lemma NewestInFront(segs: seq<Seg>, below: seq<Seg>)
    ensures InFront(segs, below, Stack(segs, below))
  {
    var r := Stack(segs, below);
    forall i | 0 <= i < |r|
      ensures r[i] == if i < |segs| then segs[|segs| - 1 - i] else below[i - |segs|]
    {
      StackIndex(segs, below, i);
    }
  }

  // -------------------------------------------------------------------------
  // Compaction
  // -------------------------------------------------------------------------

  /** All segments have become one, under the next number and the maximum that the front one declared. Its file is new
      and those of the old segments are gone; its record and their removal, synced, are all that the manifest gains. */
  ghost predicate AllMerged(s: State, s': State)
  {
    && |s.segments| >= 2 && |s'.segments| == 1
    && s'.segments[0].id == s.nextSegId && s'.segments[0].maxSeq == s.segments[0].maxSeq
    && s'.active == s.active && s'.frozen == s.frozen && s'.nextSegId == s.nextSegId + 1
    && s'.nextSequence == s.nextSequence && s'.job == s.job && s'.disk.wal == s.disk.wal
    && (forall seg :: seg in s.segments ==> seg.id !in s'.disk.files)
    && (forall id :: id in s'.disk.files ==> id in s.disk.files || id == s.nextSegId)
    && (forall id :: id in s.disk.files ==> id in s'.disk.files || exists seg :: seg in s.segments && seg.id == id)
    && (forall id :: id in s'.disk.files ==> s'.disk.files[id] == if id == s.nextSegId then s'.segments[0] else s.disk.files[id])
    && (s.nextSegId in s'.disk.files || exists seg :: seg in s.segments && seg.id == s.nextSegId)
    && |s'.disk.manifest| == |s.disk.manifest| + 1 + |s.segments| && s'.disk.manifest[..|s.disk.manifest|] == s.disk.manifest
    && s'.disk.manifest[|s.disk.manifest|] == AddSegment(s.nextSegId, s.segments[0].maxSeq)
    && (forall i :: 0 <= i < |s.segments| ==> s'.disk.manifest[|s.disk.manifest| + 1 + i] == RemoveSegment(s.segments[i].id))
    && s'.disk.synced == |s'.disk.manifest|
  }

  lemma CompactEffect(s: State, keep: nat, s': State)
    requires Path(s, CompactEvents(keep), s')
    ensures AllMerged(s, s')
  {
    var s1, s2, s3, s4 := CompactionSteps(s, keep, s');
    CompactEnds(s, keep, s1, s2, s3, s4, s');
    hide RegisterMergedStep;
    hide SyncStep;
    hide PublishMergedStep;
    hide DeleteStep;
    hide Path;
    hide Merged;
    assert s.job == Idle && |s.segments| >= 2;
  }

  // -------------------------------------------------------------------------
  // Reopening
  // -------------------------------------------------------------------------

  /** The segment was added and not removed since. */
  ghost predicate StaysLive(m: Manifest, id: nat)
  {
    exists i :: 0 <= i < |m| && m[i].AddSegment? && m[i].id == id && forall j :: i < j < |m| ==> m[j] != RemoveSegment(id)
  }

  lemma {:induction false} LiveStays(m: Manifest, id: nat)
    ensures id in LiveIds(m) <==> StaysLive(m, id)
  {
    if m != [] {
      var n := |m| - 1;
      LiveStays(m[..n], id);
      if StaysLive(m[..n], id) && m[n] != RemoveSegment(id) {
        var i :| && 0 <= i < n && m[..n][i].AddSegment? && m[..n][i].id == id
                 && forall j :: i < j < n ==> m[..n][j] != RemoveSegment(id);
        assert m[i].AddSegment? && m[i].id == id;
        assert forall j :: i < j < n ==> m[j] == m[..n][j];
      }
      if StaysLive(m, id) {
        var i :| 0 <= i < |m| && m[i].AddSegment? && m[i].id == id && forall j :: i < j < |m| ==> m[j] != RemoveSegment(id);
        assert i < n ==> m[..n][i] == m[i];
        assert forall j :: i < j < n ==> m[..n][j] == m[j];
      }
    }
  }

  /** The record tells of a flushed sequence. */
  predicate Tells(r: ManifestRecord, n: nat)
  {
    (r.AddSegment? && r.maxSeq == n) || (r.SetWalCheckpoint? && r.sequence == n)
  }

  /** `n` is the greatest sequence that a record tells of, 0 if there is none. */
  ghost predicate GreatestTold(m: Manifest, n: nat)
  {
    && (forall i, x: nat :: 0 <= i < |m| && Tells(m[i], x) ==> x <= n)
    && (n == 0 || exists i :: 0 <= i < |m| && Tells(m[i], n))
  }

  lemma {:induction false} FlushedIsGreatest(m: Manifest)
    ensures GreatestTold(m, MaxFlushed(m))
  {
    if m != [] {
      var n := |m| - 1;
      FlushedIsGreatest(m[..n]);
      forall i, x: nat | 0 <= i < |m| && Tells(m[i], x)
        ensures x <= MaxFlushed(m)
      {
        assert i < n ==> m[i] == m[..n][i];
      }
      if MaxFlushed(m) == MaxFlushed(m[..n]) && MaxFlushed(m) != 0 {
        var i :| 0 <= i < n && Tells(m[..n][i], MaxFlushed(m));
        assert Tells(m[i], MaxFlushed(m));
      } else {
        assert MaxFlushed(m) != 0 ==> Tells(m[n], MaxFlushed(m));
      }
    }
  }

  /** The first `n` frames follow one another without a gap, and the next does not follow. */
  ghost predicate LongestRun(wal: History, n: nat)
  {
    && n <= |wal| && (wal != [] ==> n > 0)
    && (forall i :: 0 <= i < n - 1 ==> wal[i + 1].sequence == wal[i].sequence + 1)
    && (0 < n < |wal| ==> wal[n].sequence != wal[n - 1].sequence + 1)
  }

  lemma {:induction false} AcceptedIsLongest(wal: History)
    ensures LongestRun(wal, AcceptedLength(wal))
  {
    if |wal| > 1 && wal[1].sequence == wal[0].sequence + 1 {
      AcceptedIsLongest(wal[1..]);
      var n := AcceptedLength(wal);
      forall i | 0 <= i < n - 1
        ensures wal[i + 1].sequence == wal[i].sequence + 1
      {
        if i > 0 {
          assert wal[1..][i].sequence == wal[1..][i - 1].sequence + 1;
        }
      }
    }
  }

  /** The least sequence above all that the log's frames carry and the records tell of. */
  ghost predicate NextFree(wal: History, m: Manifest, n: nat)
  {
    && n > 0
    && (forall i :: 0 <= i < |wal| ==> wal[i].sequence < n)
    && (forall i, x: nat :: 0 <= i < |m| && Tells(m[i], x) ==> x < n)
    && (n == 1 || (exists i :: 0 <= i < |wal| && wal[i].sequence == n - 1) || exists i :: 0 <= i < |m| && Tells(m[i], n - 1))
  }

  lemma {:induction false} LastIsGreatest(wal: History, n: nat, i: nat)
    requires LongestRun(wal, n) && i < n
    ensures wal[i].sequence <= wal[n - 1].sequence
    decreases n - i
  {
    if i < n - 1 {
      LastIsGreatest(wal, n, i + 1);
    }
  }

  lemma RestoredIsNext(d: Disk)
    ensures NextFree(Accepted(d.wal), d.manifest, RestoredSequence(d))
  {
    var n, floor, wal := AcceptedLength(d.wal), MaxFlushed(d.manifest), Accepted(d.wal);
    AcceptedIsLongest(d.wal);
    FlushedIsGreatest(d.manifest);
    forall i | 0 <= i < n
      ensures wal[i].sequence <= LastSequence(wal)
    {
      LastIsGreatest(d.wal, n, i);
    }
    hide AcceptedLength;
    hide MaxFlushed;
    hide LongestRun;
    hide Tells;
    if floor + 1 == RestoredSequence(d) {
      assert floor == 0 || exists i :: 0 <= i < |d.manifest| && Tells(d.manifest[i], floor);
    } else {
      assert wal[|wal| - 1].sequence == RestoredSequence(d) - 1;
    }
  }

  /**
   * What opening a disk leaves: the log's longest run of consecutive frames, the next free
   * sequence, nothing frozen, and as segments the files of exactly the ids that stay live,
   * the greatest declared maximum first.
   */
  ghost predicate Reopened(d: Disk, s: State)
  {
    && s.disk.wal <= d.wal && LongestRun(d.wal, |s.disk.wal|)
    && s.disk.manifest == d.manifest && s.disk.files == d.files && s.frozen == [] && s.job == Idle
    && NextFree(s.disk.wal, d.manifest, s.nextSequence)
    && (forall i :: 0 <= i < |s.segments| ==> s.segments[i].id in d.files && d.files[s.segments[i].id] == s.segments[i])
    && (forall i, j :: 0 <= i < j < |s.segments| ==>
          s.segments[i].id != s.segments[j].id && s.segments[i].maxSeq >= s.segments[j].maxSeq)
    && forall id :: StaysLive(d.manifest, id) <==> exists i :: 0 <= i < |s.segments| && s.segments[i].id == id
  }

  lemma OpenEffect(d: Disk, s: State)
    requires Opened(d, s)
    ensures Reopened(d, s)
  {
    RestoredIsNext(d);
    AcceptedIsLongest(d.wal);
    hide NextFree;
    hide LongestRun;
    hide AcceptedLength;
    hide RestoredSequence;
    hide StaysLive;
    forall id
      ensures StaysLive(d.manifest, id) <==> exists i :: 0 <= i < |s.segments| && s.segments[i].id == id
    {
      LiveStays(d.manifest, id);
      hide LiveIds;
      assert id in Ids(s.segments) <==> id in LiveIds(d.manifest);
    }
  }
}
