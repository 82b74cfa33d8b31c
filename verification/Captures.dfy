/** Recording a media stream into a file that appears only once it is complete. */
module Captures {
  import opened Options
  import opened Decimals
  import opened FileNames
  import opened SecretNames
  import opened Disks

  const MAX_CAPTURE_OUTPUT_BYTES: nat := 256 * 1024 * 1024

  function StagingPath(path: Path, pid: nat): Path {
    Path(path.dir, WithExtension(path.name, Decimal(pid) + ".part"))
  }

  lemma StagingPathWrittenOut()
    ensures StagingPath(Path("d", "a.png"), 7) == Path("d", "a.7.part")
  {
    LastPartFound("a", "png", '.');
    assert "a" + ['.'] + "png" == "a.png";
    assert Decimal(7) == "7";
    assert "a.png"[..1] == "a";
  }

  lemma StagingIsNotTarget(path: Path, pid: nat)
    ensures StagingPath(path, pid) != path
  {
    var e := Decimal(pid) + ".part";
    assert e[|Decimal(pid)|] == '.';
    DottedExtensionChangesName(path.name, e);
  }

  /** The target held one of two things, and nothing else was touched, in every state. */
  ghost predicate OnlyEver(history: seq<Files>, start: nat, before: Files, path: Path, temp: Path,
                           whole: Option<Entry>) {
    forall k :: start <= k < |history| ==>
      && (At(history[k], path) == At(before, path) || At(history[k], path) == whole)
      && forall q :: q != path && q != temp ==> At(history[k], q) == At(before, q)
  }

  class AtomicOutput {
    const disk: Disk
    const path: Path
    const temp: Path
    var open: bool

    constructor (disk: Disk, path: Path, temp: Path)
      ensures this.disk == disk && this.path == path && this.temp == temp && open
    {
      this.disk, this.path, this.temp, open := disk, path, temp, true;
    }

    /** The staging file holds exactly these bytes. */
    ghost predicate Holds(bytes: Bytes)
      reads this, disk
    {
      open && temp != path && At(disk.files, temp) == Some(File(bytes))
    }

    /** Stages a new capture; a stale staging file makes it fail and stays. */
    static method Stage(disk: Disk, path: Path, pid: nat) returns (out: AtomicOutput?)
      modifies disk
      ensures old(disk.history) <= disk.history
      ensures var temp := StagingPath(path, pid);
              && OnlyEver(disk.history, |old(disk.history)|, old(disk.files), path, temp, At(old(disk.files), path))
              && (forall q :: q != temp ==> At(disk.files, q) == At(old(disk.files), q))
              && (temp in old(disk.files) ==> out == null && disk.files == old(disk.files))
              && (temp !in old(disk.files) && (forall n :: !disk.fails(n)) ==> out != null)
              && (temp !in old(disk.files) && out == null && temp in disk.files ==> disk.LastFailed())
              && (out != null ==>
                  fresh(out) && out.disk == disk && out.path == path && out.temp == temp && out.Holds([]))
    {
      var temp := StagingPath(path, pid);
      StagingIsNotTarget(path, pid);
      var made := disk.CreateNew(temp);
      if !made.Opened? {
        return null;
      }
      var restricted := disk.Touch();
      if !restricted {
        var cleaned := disk.Remove(temp);
        return null;
      }
      out := new AtomicOutput(disk, path, temp);
    }

    method Write(ghost before: Bytes, bytes: Bytes) returns (ok: bool)
      requires Holds(before)
      modifies disk
      ensures old(disk.history) <= disk.history && |disk.history| == |old(disk.history)| + 1
      ensures disk.history[|old(disk.history)|] == disk.files
      ensures forall q :: q != temp ==> At(disk.files, q) == At(old(disk.files), q)
      ensures At(disk.files, temp).Some? && disk.files[temp].File?
      ensures ok ==> Holds(before + bytes)
      ensures !ok ==> disk.LastFailed()
    {
      ok := disk.Append(temp, bytes);
    }

    /** Closes the staging file, moves it over the target and drops the object. */
    method Commit(ghost bytes: Bytes) returns (ok: bool)
      requires Holds(bytes)
      modifies this, disk
      ensures old(disk.history) <= disk.history
      ensures OnlyEver(disk.history, |old(disk.history)|, old(disk.files), path, temp, Some(File(bytes)))
      ensures forall q :: q != path && q != temp ==> At(disk.files, q) == At(old(disk.files), q)
      ensures At(disk.files, path) == if ok then Some(File(bytes)) else At(old(disk.files), path)
      ensures temp in disk.files ==> !ok && disk.LastFailed()
      ensures (forall n :: !disk.fails(n)) ==> ok == (At(old(disk.files), path) != Some(Directory))
    {
      open := false;
      ok := disk.Touch();
      if ok {
        ok := disk.Touch();
      }
      if ok {
        ok := disk.Rename(temp, path);
      }
      Drop();
    }

    method Drop()
      modifies disk
      ensures disk.files == old(disk.files) || disk.files == old(disk.files) - {temp}
      ensures At(old(disk.files), temp) != Some(Directory) && temp in disk.files ==> disk.LastFailed()
      ensures disk.history == old(disk.history) + [disk.files]
    {
      var cleaned := disk.Remove(temp);
    }
  }

  // ------------------------------------------------------------ the capture

  /** What the receiver delivers, one wait at a time, until the deadline. */
  datatype Arrival = Unit(data: Bytes) | Idle | Broken

  function Units(arrivals: seq<Arrival>): seq<Bytes> {
    if arrivals == [] then []
    else
      var last := arrivals[|arrivals| - 1];
      Units(arrivals[..|arrivals| - 1]) + if last.Unit? then [last.data] else []
  }

  function Concat(parts: seq<Bytes>): Bytes {
    if parts == [] then [] else Concat(parts[..|parts| - 1]) + parts[|parts| - 1]
  }

  /** Everything delivered so far, in order. */
  function Received(arrivals: seq<Arrival>): Bytes {
    Concat(Units(arrivals))
  }

  lemma OneMore(arrivals: seq<Arrival>, n: nat)
    requires n < |arrivals|
    ensures var next := arrivals[n];
            && Units(arrivals[..n + 1]) == Units(arrivals[..n]) + (if next.Unit? then [next.data] else [])
            && Received(arrivals[..n + 1]) == if next.Unit? then Received(arrivals[..n]) + next.data
               else Received(arrivals[..n])
  {
    assert arrivals[..n + 1][..n] == arrivals[..n];
    var parts := Units(arrivals[..n]);
    if arrivals[n].Unit? {
      assert (parts + [arrivals[n].data])[..|parts|] == parts;
    } else {
      assert parts + [] == parts;
    }
  }

  /** The stream broke off at this arrival, or the unit in it is one too big. */
  predicate Stopped(arrivals: seq<Arrival>, maxUnits: nat, at: nat) {
    && at < |arrivals| && |Units(arrivals[..at])| < maxUnits
    && (arrivals[at].Broken? || |Received(arrivals[..at + 1])| > MAX_CAPTURE_OUTPUT_BYTES)
  }

  /** Somewhere before enough units are in, the stream breaks off or grows too big. */
  ghost predicate Interrupted(arrivals: seq<Arrival>, maxUnits: nat) {
    exists at :: Stopped(arrivals, maxUnits, at)
  }

  lemma {:induction false} MoreArrives(arrivals: seq<Arrival>, i: nat, j: nat)
    requires i <= j <= |arrivals|
    ensures |Units(arrivals[..i])| <= |Units(arrivals[..j])| && |Received(arrivals[..i])| <= |Received(arrivals[..j])|
    decreases j - i
  {
    if i < j {
      OneMore(arrivals, j - 1);
      MoreArrives(arrivals, i, j - 1);
    }
  }

  /** A loop that got to its end passed no place where it should have stopped. */
  lemma CompleteIsNotInterrupted(arrivals: seq<Arrival>, maxUnits: nat, used: nat)
    requires used <= |arrivals| && Broken !in arrivals[..used]
    requires |Received(arrivals[..used])| <= MAX_CAPTURE_OUTPUT_BYTES
    requires |Units(arrivals[..used])| == maxUnits || used == |arrivals|
    ensures !Interrupted(arrivals, maxUnits)
  {
    forall at: nat | at < |arrivals| ensures !Stopped(arrivals, maxUnits, at) {
      if at < used {
        assert arrivals[..used][at] == arrivals[at];
        MoreArrives(arrivals, at + 1, used);
      } else {
        MoreArrives(arrivals, used, at);
      }
    }
  }

  /** The receive loop: counts units and bytes and stages them. It stops at the unit limit
      or the deadline, and fails when the stream breaks, a write fails or the bytes so far
      would exceed the budget. */
  method Receive(out: AtomicOutput, maxUnits: nat, arrivals: seq<Arrival>)
    returns (ok: bool, units: nat, bytes: nat, used: nat)
    requires out.Holds([])
    modifies out.disk
    ensures old(out.disk.history) <= out.disk.history
    ensures OnlyTouches(out.disk, out.temp, old(out.disk.files), |old(out.disk.history)|)
    ensures used <= |arrivals|
    ensures ok ==>
      && out.Holds(Received(arrivals[..used])) && Broken !in arrivals[..used]
      && units == |Units(arrivals[..used])| && bytes == |Received(arrivals[..used])|
      && units <= maxUnits && (units == maxUnits || used == |arrivals|)
      && bytes <= MAX_CAPTURE_OUTPUT_BYTES
    ensures !ok ==> Stopped(arrivals, maxUnits, used) || out.disk.LastFailed()
    ensures At(out.disk.files, out.temp).Some? && out.disk.files[out.temp].File?
  {
    ok, units, bytes, used := true, 0, 0, 0;
    while units < maxUnits && used < |arrivals|
      invariant used <= |arrivals| && Broken !in arrivals[..used]
      invariant out.Holds(Received(arrivals[..used]))
      invariant units == |Units(arrivals[..used])| <= maxUnits
      invariant bytes == |Received(arrivals[..used])| <= MAX_CAPTURE_OUTPUT_BYTES
      invariant old(out.disk.history) <= out.disk.history
      invariant OnlyTouches(out.disk, out.temp, old(out.disk.files), |old(out.disk.history)|)
      decreases |arrivals| - used
    {
      OneMore(arrivals, used);
      var next := arrivals[used];
      if next.Broken? {
        return false, units, bytes, used;
      }
      if next.Unit? {
        var wrote := out.Write(Received(arrivals[..used]), next.data);
        if !wrote || bytes + |next.data| > MAX_CAPTURE_OUTPUT_BYTES {
          return false, units, bytes, used;
        }
        bytes, units := bytes + |next.data|, units + 1;
      }
      used := used + 1;
    }
  }

  /** A capture to a file. The target only ever changes to the concatenation of all the
      units received, within the budget. It has changed exactly when the move took effect;
      the call then still fails if stopping the stream fails. */
  method CaptureToFile(disk: Disk, path: Path, pid: nat, maxUnits: nat, arrivals: seq<Arrival>, stops: bool)
    returns (ok: bool, installed: bool, units: nat, bytes: nat, used: nat)
    modifies disk
    ensures old(disk.history) <= disk.history && used <= |arrivals|
    ensures OnlyEver(disk.history, |old(disk.history)|, old(disk.files), path, StagingPath(path, pid),
                     Some(File(Received(arrivals[..used]))))
    ensures At(disk.files, path) == if installed then Some(File(Received(arrivals[..used])))
            else At(old(disk.files), path)
    ensures ok == (installed && stops)
    ensures installed ==>
      && Broken !in arrivals[..used]
      && units == |Units(arrivals[..used])| <= maxUnits && (units == maxUnits || used == |arrivals|)
      && bytes == |Received(arrivals[..used])| <= MAX_CAPTURE_OUTPUT_BYTES
    ensures StagingPath(path, pid) in old(disk.files) ==> !installed && disk.files == old(disk.files)
    ensures StagingPath(path, pid) in disk.files && StagingPath(path, pid) !in old(disk.files) ==> disk.LastFailed()
    ensures (forall n :: !disk.fails(n)) ==>
      (installed <==> && StagingPath(path, pid) !in old(disk.files) && At(old(disk.files), path) != Some(Directory)
                      && !Interrupted(arrivals, maxUnits))
  {
    ok, installed, units, bytes, used := false, false, 0, 0, 0;
    StagingIsNotTarget(path, pid);
    var out := AtomicOutput.Stage(disk, path, pid);
    if out == null {
      return;
    }
    ok, units, bytes, used := Receive(out, maxUnits, arrivals);
    if ok {
      CompleteIsNotInterrupted(arrivals, maxUnits, used);
      installed := out.Commit(Received(arrivals[..used]));
    } else {
      out.Drop();
    }
    ok := installed && stops;
  }
}
