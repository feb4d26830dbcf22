/** The subvolume summary of src/info.rs: `SubvolInfo::from_c_struct`
    copies the kernel's GET_SUBVOL_INFO reply, cuts the name at its first
    NUL and turns the four timestamps into durations. */
module Info {
  import opened Core
  import Rec = Items

  const NANOS_PER_SEC: nat := 1_000_000_000

  /** `btrfs_ioctl_timespec`. */
  datatype Timespec = Timespec(sec: u64, nsec: u32)

  /** `btrfs_ioctl_get_subvol_info_args`, without its reserved tail. */
  datatype SubvolInfoArgs = SubvolInfoArgs(
    treeid: u64,
    name: seq<u8>,
    parentId: u64,
    dirid: u64,
    generation: u64,
    flags: u64,
    uuid: seq<u8>,
    parentUuid: seq<u8>,
    receivedUuid: seq<u8>,
    ctransid: u64,
    otransid: u64,
    stransid: u64,
    rtransid: u64,
    ctime: Timespec,
    otime: Timespec,
    stime: Timespec,
    rtime: Timespec)

  /** `core::time::Duration`: whole seconds and the nanoseconds below one
      second. */
  datatype Duration = Duration(secs: u64, nanos: nat)
  {
    ghost predicate Valid()
    {
      nanos < NANOS_PER_SEC
    }
  }

  /** The length of time a duration stands for, in nanoseconds. */
  function TotalNanos(d: Duration): (n: nat)
  {
    d.secs * NANOS_PER_SEC + d.nanos
  }

  /** One past the longest duration: `Duration::MAX` is `u64::MAX` seconds
      and 999 999 999 nanoseconds. */
  const DURATION_LIMIT: nat := 0x1_0000_0000_0000_0000 * NANOS_PER_SEC

  /** `Duration::from_secs`. */
  function FromSecs(sec: u64): (d: Duration)
    ensures d.Valid() && TotalNanos(d) == sec * NANOS_PER_SEC
  {
    Duration(sec, 0)
  }

  /** `Duration::from_nanos`. */
  function FromNanos(n: u64): (d: Duration)
    ensures d.Valid() && TotalNanos(d) == n
  {
    Duration(n / NANOS_PER_SEC, n % NANOS_PER_SEC)
  }

  datatype InfoError =
    | Ioctl(errno: int)
    | DurationOverflow      // `Add for Duration` panics
    | NameNotTerminated     // `CStr::from_ptr` finds no NUL in the array

  /** `impl Add for Duration`, which panics where `checked_add` gives
      `None`: seconds are added with a carry out of the nanoseconds. */
  function AddDurations(a: Duration, b: Duration): (r: Result<Duration, InfoError>)
    requires a.Valid() && b.Valid()
  {
    if a.secs + b.secs >= 0x1_0000_0000_0000_0000 then Err(DurationOverflow)
    else
      var nanos := a.nanos + b.nanos;
      if nanos >= NANOS_PER_SEC then
        if a.secs + b.secs + 1 >= 0x1_0000_0000_0000_0000 then Err(DurationOverflow)
        else Ok(Duration(a.secs + b.secs + 1, nanos - NANOS_PER_SEC))
      else Ok(Duration(a.secs + b.secs, nanos))
  }

  /** Adding durations adds the time they stand for, and fails exactly
      when the sum is beyond the longest duration. */
  lemma AddDurationsTotal(a: Duration, b: Duration)
    requires a.Valid() && b.Valid()
    ensures AddDurations(a, b).Ok? <==> TotalNanos(a) + TotalNanos(b) < DURATION_LIMIT
    ensures AddDurations(a, b).Ok? ==>
      AddDurations(a, b).value.Valid() && TotalNanos(AddDurations(a, b).value) == TotalNanos(a) + TotalNanos(b)
    ensures AddDurations(a, b).Err? ==> AddDurations(a, b).error == DurationOverflow
  {
    var s := a.secs + b.secs;
    if a.nanos + b.nanos >= NANOS_PER_SEC {
      assert TotalNanos(a) + TotalNanos(b) == (s + 1) * NANOS_PER_SEC + (a.nanos + b.nanos - NANOS_PER_SEC);
    } else {
      assert TotalNanos(a) + TotalNanos(b) == s * NANOS_PER_SEC + (a.nanos + b.nanos);
    }
  }

  /** `Duration::from_secs(t.sec) + Duration::from_nanos(t.nsec as u64)`. */
  function TimeFromTimespec(t: Timespec): (r: Result<Duration, InfoError>)
  {
    AddDurations(FromSecs(t.sec), FromNanos(t.nsec))
  }

  /** The duration of a timestamp is `sec * 10^9 + nsec` nanoseconds; the
      conversion fails exactly when that is beyond the longest duration. */
  lemma TimeFromTimespecTotal(t: Timespec)
    ensures TimeFromTimespec(t).Ok? <==> t.sec * NANOS_PER_SEC + t.nsec < DURATION_LIMIT
    ensures TimeFromTimespec(t).Ok? ==>
      TimeFromTimespec(t).value.Valid() && TotalNanos(TimeFromTimespec(t).value) == t.sec * NANOS_PER_SEC + t.nsec
  {
    AddDurationsTotal(FromSecs(t.sec), FromNanos(t.nsec));
  }

  /** The position of the first NUL byte of `s`, if any. */
  function FirstNul(s: seq<u8>): (r: Option<nat>)
    ensures r.Some? ==> r.value < |s| && s[r.value] == 0 && forall j :: 0 <= j < r.value ==> s[j] != 0
    ensures r.None? ==> forall j :: 0 <= j < |s| ==> s[j] != 0
  {
    if |s| == 0 then None
    else if s[0] == 0 then Some(0)
    else match FirstNul(s[1..])
      case None => None
      case Some(i) => Some(i + 1)
  }

  /** `CStr::from_ptr(..).to_bytes()` on the name array: the bytes before
      the first NUL. Without a NUL the source reads past the array; that is
      an error here. */
  function CStrBytes(name: seq<u8>): (r: Result<seq<u8>, InfoError>)
    ensures r.Ok? ==> |r.value| < |name| && name[|r.value|] == 0 && r.value == name[..|r.value|]
    ensures r.Ok? ==> forall j :: 0 <= j < |r.value| ==> r.value[j] != 0
    ensures r.Err? <==> forall j :: 0 <= j < |name| ==> name[j] != 0
    ensures r.Err? ==> r.error == NameNotTerminated
  {
    match FirstNul(name)
    case None => Err(NameNotTerminated)
    case Some(i) => Ok(name[..i])
  }

  /** A NUL-free name stored with a terminator is read back whatever fills
      the rest of the array. */
  lemma {:induction false} CStrRoundTrip(name: seq<u8>, rest: seq<u8>)
    requires forall j :: 0 <= j < |name| ==> name[j] != 0
    ensures CStrBytes(name + [0] + rest) == Ok(name)
  {
    var s := name + [0] + rest;
    assert s[|name|] == 0;
    assert forall j :: 0 <= j < |name| ==> s[j] == name[j];
    assert s[..|name|] == name;
  }

  /** `struct SubvolInfo`; the name is the byte string `PathBuf::from`
      receives. */
  datatype SubvolInfo = SubvolInfo(
    treeId: u64,
    name: seq<u8>,
    parentId: u64,
    dirid: u64,
    generation: u64,
    flags: u64,
    uuid: Rec.Uuid,
    parentUuid: Rec.Uuid,
    receivedUuid: Rec.Uuid,
    ctransid: u64,
    otransid: u64,
    stransid: u64,
    rtransid: u64,
    ctime: Duration,
    otime: Duration,
    stime: Duration,
    rtime: Duration)

  /** `SubvolInfo::from_c_struct`. The fields are computed in declaration
      order, so the first failure is the name's, then the timestamps' in
      the order `ctime`, `otime`, `stime`, `rtime`. */
  function FromCStruct(info: SubvolInfoArgs): (r: Result<SubvolInfo, InfoError>)
    ensures r.Err? ==> !r.error.Ioctl?
    ensures r.Ok? ==>
      && r.value.treeId == info.treeid && r.value.parentId == info.parentId
      && r.value.dirid == info.dirid && r.value.generation == info.generation && r.value.flags == info.flags
      && r.value.uuid == Rec.Uuid(info.uuid) && r.value.parentUuid == Rec.Uuid(info.parentUuid)
      && r.value.receivedUuid == Rec.Uuid(info.receivedUuid)
      && r.value.ctransid == info.ctransid && r.value.otransid == info.otransid
      && r.value.stransid == info.stransid && r.value.rtransid == info.rtransid
    ensures r.Ok? <==>
      && CStrBytes(info.name).Ok?
      && TimeFromTimespec(info.ctime).Ok? && TimeFromTimespec(info.otime).Ok?
      && TimeFromTimespec(info.stime).Ok? && TimeFromTimespec(info.rtime).Ok?
    ensures r.Ok? ==>
      && r.value.name == CStrBytes(info.name).value
      && r.value.ctime == TimeFromTimespec(info.ctime).value
      && r.value.otime == TimeFromTimespec(info.otime).value
      && r.value.stime == TimeFromTimespec(info.stime).value
      && r.value.rtime == TimeFromTimespec(info.rtime).value
  {
    var name :- CStrBytes(info.name);
    var ctime :- TimeFromTimespec(info.ctime);
    var otime :- TimeFromTimespec(info.otime);
    var stime :- TimeFromTimespec(info.stime);
    var rtime :- TimeFromTimespec(info.rtime);
    Ok(SubvolInfo(info.treeid, name, info.parentId, info.dirid, info.generation, info.flags,
                  Rec.Uuid(info.uuid), Rec.Uuid(info.parentUuid), Rec.Uuid(info.receivedUuid),
                  info.ctransid, info.otransid, info.stransid, info.rtransid,
                  ctime, otime, stime, rtime))
  }

  /** What the summary says about a reply the kernel produces: the name is
      the NUL-free prefix of the array and each time is `sec * 10^9 + nsec`
      nanoseconds. Timestamps below 2^64 - 4 seconds never overflow. */
  lemma SubvolInfoMeaning(info: SubvolInfoArgs, name: seq<u8>, rest: seq<u8>)
    requires info.name == name + [0] + rest
    requires forall j :: 0 <= j < |name| ==> name[j] != 0
    requires info.ctime.sec < 0xFFFF_FFFF_FFFF_FFFC && info.otime.sec < 0xFFFF_FFFF_FFFF_FFFC
    requires info.stime.sec < 0xFFFF_FFFF_FFFF_FFFC && info.rtime.sec < 0xFFFF_FFFF_FFFF_FFFC
    ensures FromCStruct(info).Ok?
    ensures var v := FromCStruct(info).value;
      && v.name == name
      && TotalNanos(v.ctime) == info.ctime.sec * NANOS_PER_SEC + info.ctime.nsec
      && TotalNanos(v.otime) == info.otime.sec * NANOS_PER_SEC + info.otime.nsec
      && TotalNanos(v.stime) == info.stime.sec * NANOS_PER_SEC + info.stime.nsec
      && TotalNanos(v.rtime) == info.rtime.sec * NANOS_PER_SEC + info.rtime.nsec
  {
    CStrRoundTrip(name, rest);
    TimeFromTimespecTotal(info.ctime);
    TimeFromTimespecTotal(info.otime);
    TimeFromTimespecTotal(info.stime);
    TimeFromTimespecTotal(info.rtime);
  }

  /** `subvol_info`: the ioctl is an oracle reply, an errno or the filled
      argument struct. */
  function SubvolInfoQuery(reply: Result<SubvolInfoArgs, int>): (r: Result<SubvolInfo, InfoError>)
    ensures (r.Err? && r.error.Ioctl?) <==> reply.Err?
    ensures reply.Err? ==> r.error.errno == reply.error
    ensures reply.Ok? ==>
      (r.Ok? <==>
         && CStrBytes(reply.value.name).Ok?
         && TimeFromTimespec(reply.value.ctime).Ok? && TimeFromTimespec(reply.value.otime).Ok?
         && TimeFromTimespec(reply.value.stime).Ok? && TimeFromTimespec(reply.value.rtime).Ok?)
    ensures r.Ok? ==>
      && r.value.treeId == reply.value.treeid
      && r.value.name == CStrBytes(reply.value.name).value
      && r.value.ctime == TimeFromTimespec(reply.value.ctime).value
      && r.value.otime == TimeFromTimespec(reply.value.otime).value
      && r.value.stime == TimeFromTimespec(reply.value.stime).value
      && r.value.rtime == TimeFromTimespec(reply.value.rtime).value
  {
    match reply
    case Err(e) => Err(Ioctl(e))
    case Ok(info) => FromCStruct(info)
  }
}
