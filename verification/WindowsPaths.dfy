/** Preparing Windows paths for a move: asking the system for the full path with a
    growing buffer, and putting long paths into the verbatim namespace. */
module WindowsPaths {
  import opened Options

  /** A UTF-16 code unit; zero ends a path. */
  type Unit = nat
  type Wide = seq<Unit>

  const MAX_PATH: nat := 260
  const EXTENDED_MAX: nat := 32_767
  const INITIAL_CAPACITY: nat := 256
  const MAX_ATTEMPTS: nat := 8

  const BACKSLASH: Unit := 92
  const VERBATIM: Wide := [92, 92, 63, 92]
  const NT: Wide := [92, 63, 63, 92]
  const DEVICE: Wide := [92, 92, 46, 92]
  const UNC: Wide := [92, 92, 63, 92, 85, 78, 67, 92]

  datatype PathError = ContainsNul | TooLong | Os | RetryLimit

  // -------------------------------------------------------- full path name

  /** What one call of the system function does: the length it returns and the buffer it
      leaves, for a call number and a capacity. */
  datatype Answer = Answer(length: nat, buffer: Wide)

  type System = (nat, nat) -> Answer

  ghost predicate FillsBuffer(system: System) {
    forall call, capacity :: |system(call, capacity).buffer| == capacity
  }

  /** The documented contract for one fixed full path: it is written when it fits with its
      terminator, and otherwise the size needed is returned. */
  ghost predicate Stable(system: System, full: Wide) {
    forall call, capacity ::
      var a := system(call, capacity);
      if |full| < capacity then a.length == |full| && |a.buffer| >= |full| && a.buffer[..|full|] == full
      else a.length == |full| + 1
  }

  function Max(a: nat, b: nat): nat { if a < b then b else a }

  function Min(a: nat, b: nat): nat { if a < b then a else b }

  /** The capacity tried after one that was too small. */
  function Grown(capacity: nat, length: nat): nat {
    Min(Max(2 * capacity, length + 1), EXTENDED_MAX + 1)
  }

  /** The outcome of asking, and the capacities asked with. */
  datatype Asked = Asked(r: Result<Wide, PathError>, capacities: seq<nat>)

  function AskFrom(system: System, attempt: nat, capacity: nat): Asked
    decreases MAX_ATTEMPTS - attempt
  {
    if attempt >= MAX_ATTEMPTS then Asked(Err(RetryLimit), [])
    else
      var a := system(attempt, capacity);
      if a.length == 0 then Asked(Err(Os), [capacity])
      else if a.length < capacity then
        Asked(Ok(if a.length <= |a.buffer| then a.buffer[..a.length] else a.buffer), [capacity])
      else if a.length + 1 > EXTENDED_MAX + 1 then Asked(Err(TooLong), [capacity])
      else
        var rest := AskFrom(system, attempt + 1, Grown(capacity, a.length));
        Asked(rest.r, [capacity] + rest.capacities)
  }

  /** The retry loop around the system call. */
  method GetFullPathName(system: System) returns (r: Result<Wide, PathError>, ghost capacities: seq<nat>)
    requires FillsBuffer(system)
    ensures r == AskFrom(system, 0, INITIAL_CAPACITY).r && capacities == AskFrom(system, 0, INITIAL_CAPACITY).capacities
  {
    var capacity := INITIAL_CAPACITY;
    capacities := [];
    for attempt := 0 to MAX_ATTEMPTS
      invariant Continues(AskFrom(system, 0, INITIAL_CAPACITY), capacities, AskFrom(system, attempt, capacity))
    {
      Asking(system, attempt, capacity, capacities);
      var a := system(attempt, capacity);
      capacities := capacities + [capacity];
      if a.length == 0 {
        return Err(Os), capacities;
      }
      if a.length < capacity {
        return Ok(a.buffer[..a.length]), capacities;
      }
      if a.length + 1 > EXTENDED_MAX + 1 {
        return Err(TooLong), capacities;
      }
      capacity := Grown(capacity, a.length);
    }
    return Err(RetryLimit), capacities;
  }

  lemma Asking(system: System, attempt: nat, capacity: nat, sofar: seq<nat>)
    requires attempt < MAX_ATTEMPTS
    ensures var a, asked := system(attempt, capacity), AskFrom(system, attempt, capacity);
            if a.length == 0 || a.length < capacity || a.length + 1 > EXTENDED_MAX + 1 then
              asked.capacities == [capacity]
            else
              var rest := AskFrom(system, attempt + 1, Grown(capacity, a.length));
              asked.r == rest.r && sofar + asked.capacities == (sofar + [capacity]) + rest.capacities
  {
  }

  /** The whole outcome is what was asked so far, continued by the rest. */
  ghost predicate Continues(all: Asked, sofar: seq<nat>, rest: Asked) {
    all.r == rest.r && all.capacities == sofar + rest.capacities
  }

  /** The least capacity at an attempt: it doubles until it is full. */
  function Reached(attempt: nat): nat {
    if attempt == 0 then INITIAL_CAPACITY else Min(2 * Reached(attempt - 1), EXTENDED_MAX + 1)
  }

  /** However the system answers: at most eight calls, with growing capacities never above
      32768 units, and the retry limit is never the reason for an error, because by the
      eighth call the buffer has its full size. */
  lemma {:induction false} AskingIsBounded(system: System, attempt: nat, capacity: nat)
    requires attempt < MAX_ATTEMPTS && Reached(attempt) <= capacity <= EXTENDED_MAX + 1
    requires FillsBuffer(system)
    ensures var asked := AskFrom(system, attempt, capacity);
            && asked.r != Err(RetryLimit)
            && (asked.r.Ok? ==> |asked.r.value| <= EXTENDED_MAX)
            && 1 <= |asked.capacities| <= MAX_ATTEMPTS - attempt && asked.capacities[0] == capacity
            && Climbs(asked.capacities)
    decreases MAX_ATTEMPTS - attempt
  {
    var a := system(attempt, capacity);
    if capacity <= a.length && a.length + 1 <= EXTENDED_MAX + 1 {
      if attempt + 1 == MAX_ATTEMPTS {
        FullByTheEighth();
      } else {
        AskingIsBounded(system, attempt + 1, Grown(capacity, a.length));
        assert ([capacity] + AskFrom(system, attempt + 1, Grown(capacity, a.length)).capacities)[1..]
            == AskFrom(system, attempt + 1, Grown(capacity, a.length)).capacities;
      }
    }
  }

  /** Strictly growing, and never above the limit. */
  predicate Climbs(capacities: seq<nat>) {
    capacities == [] ||
    (&& capacities[0] <= EXTENDED_MAX + 1
     && (|capacities| > 1 ==> capacities[0] < capacities[1])
     && Climbs(capacities[1..]))
  }

  lemma FullByTheEighth()
    ensures Reached(7) == EXTENDED_MAX + 1
  {
    assert Reached(2) == 1024;
    assert Reached(4) == 4096;
    assert Reached(6) == 16384;
  }

  /** When the system keeps to one full path, two calls do, and it is returned exactly up
      to 32766 units: a path of 32767, though within the limit, is refused. */
  lemma StablePathTakesTwoCalls(system: System, full: Wide)
    requires Stable(system, full) && full != []
    ensures var asked := AskFrom(system, 0, INITIAL_CAPACITY);
            && |asked.capacities| <= 2
            && asked.r == if |full| <= EXTENDED_MAX - 1 then Ok(full) else Err(TooLong)
  {
    if |full| >= INITIAL_CAPACITY && |full| + 2 <= EXTENDED_MAX + 1 {
      var capacity := Grown(INITIAL_CAPACITY, |full| + 1);
      assert |full| < capacity;
      assert AskFrom(system, 1, capacity) == Asked(Ok(full), [capacity]);
    }
  }

  // ------------------------------------------------------------- namespaces

  predicate IsNamespacePath(path: Wide) {
    VERBATIM <= path || NT <= path || DEVICE <= path
  }

  function AddVerbatimPrefix(absolute: Wide): Result<Wide, PathError> {
    if VERBATIM <= absolute || NT <= absolute then Ok(absolute)
    else
      var (prefix, rest) :=
        if DEVICE <= absolute then (VERBATIM, absolute[4..])
        else if [BACKSLASH, BACKSLASH] <= absolute then (UNC, absolute[2..])
        else if |absolute| >= 3 && absolute[1] == 58 && absolute[2] == BACKSLASH then (VERBATIM, absolute)
        else ([], absolute);
      if |prefix| + |rest| > EXTENDED_MAX then Err(TooLong) else Ok(prefix + rest)
  }

  /** Prefixing a second time changes nothing, and no prefixed path exceeds the limit
      unless it came in that long. */
  lemma PrefixingIsIdempotent(absolute: Wide)
    ensures var once := AddVerbatimPrefix(absolute);
            once.Ok? ==>
              && AddVerbatimPrefix(once.value) == once
              && (|once.value| <= EXTENDED_MAX || once.value == absolute)
              && (0 !in absolute ==> 0 !in once.value)
  {
    var once := AddVerbatimPrefix(absolute);
    if once.Ok? && !(VERBATIM <= absolute) && !(NT <= absolute) {
      if DEVICE <= absolute {
        assert VERBATIM <= once.value;
      } else if [BACKSLASH, BACKSLASH] <= absolute {
        assert UNC[..4] == VERBATIM;
        assert VERBATIM <= once.value;
      } else if |absolute| >= 3 && absolute[1] == 58 && absolute[2] == BACKSLASH {
        assert VERBATIM <= once.value;
      } else {
        assert [] + absolute == absolute;
      }
    }
  }

  // ----------------------------------------------- reading prefixed paths

  predicate OnDrive(path: Wide) {
    |path| >= 3 && path[1..3] == [58, BACKSLASH]
  }

  /** Two backslashes and a server name, outside every namespace. */
  predicate OnShare(path: Wide) {
    [BACKSLASH, BACKSLASH] <= path && !IsNamespacePath(path)
  }

  /** The ordinary path that a path of the verbatim namespace stands for. */
  function Ordinary(long: Wide): Wide {
    if UNC <= long then [BACKSLASH, BACKSLASH] + long[|UNC|..]
    else if VERBATIM <= long then long[|VERBATIM|..]
    else long
  }

  /** How many units the verbatim form has more than the path. */
  function PrefixCost(path: Wide): nat {
    if OnShare(path) then 6 else if OnDrive(path) && !IsNamespacePath(path) then 4 else 0
  }

  /** A path on a drive or a share comes out in the verbatim namespace and stands for the very
      same path; it is refused exactly when there is no room for the prefix. */
  lemma PrefixedStandsForThePath(absolute: Wide)
    requires OnShare(absolute) || (OnDrive(absolute) && !IsNamespacePath(absolute))
    ensures var r := AddVerbatimPrefix(absolute);
            && (r.Ok? <==> |absolute| + PrefixCost(absolute) <= EXTENDED_MAX)
            && (r.Err? ==> r.error == TooLong)
            && (r.Ok? ==> VERBATIM <= r.value && Ordinary(r.value) == absolute)
  {
    if OnShare(absolute) {
      var long := UNC + absolute[2..];
      assert UNC[..4] == VERBATIM && VERBATIM <= long && UNC <= long;
      assert absolute == [BACKSLASH, BACKSLASH] + absolute[2..];
    } else {
      var long := VERBATIM + absolute;
      assert absolute[1] == absolute[1..3][0] && absolute[2] == absolute[1..3][1];
      assert long[5] == absolute[1] && UNC[5] == 78;
      assert !(UNC <= long) && long[4..] == absolute;
    }
  }

  /** A device path changes its prefix to the verbatim one and nothing else; every other path
      without drive or share stays as it is. */
  lemma OtherPathsKeepTheirRest(absolute: Wide)
    requires !OnShare(absolute) && !(OnDrive(absolute) && !IsNamespacePath(absolute))
    ensures var r := AddVerbatimPrefix(absolute);
            && (r.Err? <==> |absolute| > EXTENDED_MAX && !(VERBATIM <= absolute) && !(NT <= absolute))
            && (r.Err? ==> r.error == TooLong)
            && (r.Ok? ==> |r.value| == |absolute|)
            && (r.Ok? && !(DEVICE <= absolute) ==> r.value == absolute)
            && (r.Ok? && DEVICE <= absolute ==> VERBATIM <= r.value && r.value[4..] == absolute[4..])
  {
    if DEVICE <= absolute {
      assert (VERBATIM + absolute[4..])[4..] == absolute[4..];
    } else if !IsNamespacePath(absolute) {
      assert [] + absolute == absolute;
    }
  }

  // -------------------------------------------------------------- the call

  /** Rejects a path with a NUL in it, or one over the extended length. */
  method ValidateWindowsPath(path: Wide) returns (r: Result<(), PathError>)
    ensures r == if 0 in path then Err(ContainsNul) else if |path| > EXTENDED_MAX then Err(TooLong) else Ok(())
  {
    var length := 0;
    for i := 0 to |path|
      invariant length == i && 0 !in path[..i]
    {
      if path[i] == 0 {
        return Err(ContainsNul);
      }
      length := length + 1;
    }
    r := if length > EXTENDED_MAX then Err(TooLong) else Ok(());
  }

  /** No answer of the system has a NUL inside the length it claims. */
  ghost predicate NulFree(system: System) {
    forall call, capacity :: var a := system(call, capacity); a.length <= |a.buffer| ==> 0 !in a.buffer[..a.length]
  }

  lemma {:induction false} AskedIsNulFree(system: System, attempt: nat, capacity: nat)
    requires NulFree(system) && FillsBuffer(system)
    ensures AskFrom(system, attempt, capacity).r.Ok? ==> 0 !in AskFrom(system, attempt, capacity).r.value
    decreases MAX_ATTEMPTS - attempt
  {
    if attempt < MAX_ATTEMPTS {
      var a := system(attempt, capacity);
      AskedIsNulFree(system, attempt + 1, Grown(capacity, a.length));
    }
  }

  /** One terminating NUL at the end and none before it, within the extended length. */
  predicate Terminated(path: Wide) {
    path != [] && path[|path| - 1] == 0 && 0 !in path[..|path| - 1] && |path| <= EXTENDED_MAX + 1
  }

  /** How a long full path comes out: in the verbatim namespace, standing for the same path,
      when it is on a drive or a share, or is a device path; otherwise as it is. */
  predicate LongForm(full: Wide, r: Result<Wide, PathError>) {
    match r
    case Err(e) => e == TooLong && |full| + PrefixCost(full) > EXTENDED_MAX
    case Ok(prepared) =>
      && prepared != [] && prepared[|prepared| - 1] == 0 && |full| + PrefixCost(full) <= EXTENDED_MAX
      && var long := prepared[..|prepared| - 1];
         if PrefixCost(full) > 0 then VERBATIM <= long && Ordinary(long) == full
         else if DEVICE <= full then long == VERBATIM + full[4..]
         else long == full
  }

  lemma LongFormOfPrefixed(full: Wide)
    requires |full| <= EXTENDED_MAX
    ensures match AddVerbatimPrefix(full)
            case Err(e) => LongForm(full, Err(e))
            case Ok(long) => LongForm(full, Ok(long + [0]))
  {
    if PrefixCost(full) > 0 {
      PrefixedStandsForThePath(full);
    } else {
      OtherPathsKeepTheirRest(full);
    }
    if AddVerbatimPrefix(full).Ok? {
      var long := AddVerbatimPrefix(full).value;
      assert (long + [0])[..|long|] == long;
      assert VERBATIM <= long ==> long == VERBATIM + long[4..];
    }
  }

  /** A validated path comes out terminated: unchanged when it is already in a namespace or
      its full form is short, and otherwise as its full form in the verbatim namespace. */
  method PrepareWindowsMovePath(path: Wide, system: System) returns (r: Result<Wide, PathError>)
    requires 0 !in path && |path| <= EXTENDED_MAX
    requires FillsBuffer(system) && NulFree(system)
    ensures r.Ok? ==> Terminated(r.value)
    ensures path == [] || IsNamespacePath(path) ==> r == Ok(path + [0])
    ensures path != [] && !IsNamespacePath(path) ==>
              match AskFrom(system, 0, INITIAL_CAPACITY).r
              case Err(e) => r == Err(e)
              case Ok(full) =>
                if |full| + 1 < MAX_PATH then r == Ok(path + [0])
                else LongForm(full, r)
  {
    if path == [] || IsNamespacePath(path) {
      return Ok(path + [0]);
    }
    var full, _ := GetFullPathName(system);
    AskingIsBounded(system, 0, INITIAL_CAPACITY);
    AskedIsNulFree(system, 0, INITIAL_CAPACITY);
    if full.Err? {
      return full;
    }
    if |full.value| + 1 < MAX_PATH {
      return Ok(path + [0]);
    }
    PrefixingIsIdempotent(full.value);
    LongFormOfPrefixed(full.value);
    var long := AddVerbatimPrefix(full.value);
    if long.Err? {
      return long;
    }
    r := Ok(long.value + [0]);
  }
}
