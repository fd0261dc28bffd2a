/** The photo buffers of the photo service (libs/photo/photo_service.cpp). */
module Photo {
  import opened Words

  const BUFFERS_COUNT := 100
  const PHOTO_BUFFER_SIZE := 0x80000
  const TRIES := 3
  /** "Empty" and "Failed" with their terminating zeros. */
  const EMPTY_MARKER: seq<byte> := [69, 109, 112, 116, 121, 0]
  const FAILED_MARKER: seq<byte> := [70, 97, 105, 108, 101, 100, 0]

  type Path = string

  datatype OSResult = Success | InvalidArgument | IOError | BufferNotAvailable | CameraError(code: nat)

  datatype BufferStatus = Empty | Downloading | Occupied | Failed

  /** The bytes [offset, offset + size) of the photo buffer. */
  datatype BufferInfo = BufferInfo(status: BufferStatus, offset: nat, size: nat)

  datatype Command = DownloadPhoto(id: byte) | SavePhoto(id: byte, path: Path) | Reset

  /** How the camera answers one request: what it writes to the free space, and the photo that starts there or an error. */
  datatype Answer = Sent(photo: seq<byte>, more: seq<byte>) | Lost(scribble: seq<byte>, code: nat)

  /** What the surroundings do during a command: three answers of the camera, and how a file can be opened and written. */
  datatype Surroundings = Surroundings(answers: seq<Answer>, isOpen: bool, accepted: nat)

  // ---------- What a buffer should hold ----------

  datatype Event = Downloaded(id: byte, photo: seq<byte>) | NotDownloaded(id: byte) | WasReset

  datatype Content = Nothing | Failure | Photo(bytes: seq<byte>)

  /** What a buffer holds after some events: the outcome of the latest download into it since the last reset. */
  function Held(events: seq<Event>, id: byte): Content {
    if events == [] then Nothing
    else
      match events[|events| - 1]
      case Downloaded(i, photo) => if i == id then Photo(photo) else Held(events[..|events| - 1], id)
      case NotDownloaded(i) => if i == id then Failure else Held(events[..|events| - 1], id)
      case WasReset => Nothing
  }

  predicate Concerns(e: Event, id: byte) {
    e.WasReset? || e.id == id
  }

  /** Only events about a buffer change what it holds. */
  lemma {:induction false} OthersDoNotMatter(events: seq<Event>, more: seq<Event>, id: byte)
    requires forall e | e in more :: !Concerns(e, id)
    ensures Held(events + more, id) == Held(events, id)
  {
    if more == [] {
      assert events + more == events;
    } else {
      var last := |more| - 1;
      assert more[last] in more;
      assert (events + more)[..|events| + last] == events + more[..last];
      OthersDoNotMatter(events, more[..last], id);
    }
  }

  function Outcome(e: Event): Content {
    match e
    case Downloaded(_, photo) => Photo(photo)
    case NotDownloaded(_) => Failure
    case WasReset => Nothing
  }

  /** The last event about a buffer decides what it holds. */
  lemma LatestDecides(events: seq<Event>, id: byte, i: nat)
    requires i < |events| && Concerns(events[i], id) && forall j | i < j < |events| :: !Concerns(events[j], id)
    ensures Held(events, id) == Outcome(events[i])
  {
    assert events == events[..i + 1] + events[i + 1..];
    forall e | e in events[i + 1..] ensures !Concerns(e, id) {
      var j :| 0 <= j < |events| - i - 1 && events[i + 1..][j] == e;
      assert events[i + 1 + j] == e;
    }
    OthersDoNotMatter(events[..i + 1], events[i + 1..], id);
    assert events[..i + 1][..i] == events[..i];
  }

  /** A buffer nothing happened to is empty. */
  lemma UntouchedIsEmpty(events: seq<Event>, id: byte)
    requires forall e | e in events :: !Concerns(e, id)
    ensures Held(events, id) == Nothing
  {
    OthersDoNotMatter([], events, id);
    assert [] + events == events;
  }

  /** The bytes a save writes for what a buffer holds. */
  function Saved(c: Content): seq<byte> {
    match c
    case Nothing => EMPTY_MARKER
    case Failure => FAILED_MARKER
    case Photo(bytes) => bytes
  }

  lemma HeldAfter(events: seq<Event>, e: Event, id: byte)
    ensures Held(events + [e], id) == if Concerns(e, id) then Outcome(e) else Held(events, id)
  {
    assert (events + [e])[..|events|] == events;
  }

  // ---------- The buffers ----------

  /** A buffer shows what it should hold, within the used space. */
  ghost predicate Shows(mem: seq<byte>, free: nat, info: BufferInfo, c: Content)
    requires free <= |mem|
  {
    match c
    case Nothing => info.status == Empty
    case Failure => info.status == Failed
    case Photo(bytes) =>
      info.status == Occupied && info.offset + info.size <= free && mem[info.offset..info.offset + info.size] == bytes
  }

  predicate Disjoint(a: BufferInfo, b: BufferInfo) {
    a.status == Occupied && b.status == Occupied ==> a.offset + a.size <= b.offset || b.offset + b.size <= a.offset
  }

  /** The occupied buffers are disjoint parts of the used space and hold what was last downloaded into them. */
  ghost predicate Consistent(mem: seq<byte>, free: nat, infos: seq<BufferInfo>, events: seq<Event>) {
    && |mem| == PHOTO_BUFFER_SIZE && |infos| == BUFFERS_COUNT && free <= PHOTO_BUFFER_SIZE
    && (forall i | 0 <= i < BUFFERS_COUNT :: Shows(mem, free, infos[i], Held(events, i)))
    && (forall i, j | 0 <= i < BUFFERS_COUNT && 0 <= j < BUFFERS_COUNT && i != j :: Disjoint(infos[i], infos[j]))
  }

  /** Writing behind the used space and using more of it keeps what a buffer shows. */
  lemma StillShown(mem: seq<byte>, now: seq<byte>, free: nat, more: nat, info: BufferInfo, c: Content)
    requires free <= more <= |mem| == |now| && now[..free] == mem[..free] && Shows(mem, free, info, c)
    ensures Shows(now, more, info, c)
  {
    if c.Photo? {
      forall k | info.offset <= k < info.offset + info.size ensures now[k] == mem[k] {
        assert now[..free][k] == mem[..free][k];
      }
      assert now[info.offset..info.offset + info.size] == mem[info.offset..info.offset + info.size];
    }
  }

  /** After a download the buffer shows its outcome and the others what they did. */
  lemma DownloadConsistent(mem: seq<byte>, now: seq<byte>, free: nat, more: nat, infos: seq<BufferInfo>, events: seq<Event>,
                           id: byte, e: Event, info: BufferInfo)
    requires Consistent(mem, free, infos, events) && id < BUFFERS_COUNT && free <= more <= PHOTO_BUFFER_SIZE
    requires |now| == |mem| && now[..free] == mem[..free]
    requires (e == NotDownloaded(id) && info.status == Failed)
          || (e == Downloaded(id, now[free..more]) && info == BufferInfo(Occupied, free, more - free))
    ensures Consistent(now, more, infos[id := info], events + [e])
  {
    hide Held;
    forall i | 0 <= i < BUFFERS_COUNT ensures Shows(now, more, infos[id := info][i], Held(events + [e], i)) {
      HeldAfter(events, e, i);
      if i != id { StillShown(mem, now, free, more, infos[i], Held(events, i)); }
    }
    forall i | 0 <= i < BUFFERS_COUNT && i != id ensures Disjoint(info, infos[i]) && Disjoint(infos[i], info) {
      assert Shows(mem, free, infos[i], Held(events, i));
    }
  }

  lemma ResetConsistent(mem: seq<byte>, infos: seq<BufferInfo>, events: seq<Event>)
    requires |mem| == PHOTO_BUFFER_SIZE && |infos| == BUFFERS_COUNT && forall i | 0 <= i < BUFFERS_COUNT :: infos[i].status == Empty
    ensures Consistent(mem, 0, infos, events + [WasReset])
  {
    hide Held;
    forall i | 0 <= i < BUFFERS_COUNT ensures Shows(mem, 0, infos[i], Held(events + [WasReset], i)) { HeldAfter(events, WasReset, i); }
  }

  lemma ShownBuffer(mem: seq<byte>, free: nat, infos: seq<BufferInfo>, events: seq<Event>, id: byte)
    requires Consistent(mem, free, infos, events) && id < BUFFERS_COUNT
    ensures Shows(mem, free, infos[id], Held(events, id))
  {
  }

  // ---------- The camera ----------

  /** The first request that is answered with a photo, or the number of requests. */
  function FirstSent(answers: seq<Answer>): (k: nat)
    ensures k <= |answers| && (k < |answers| ==> answers[k].Sent?) && forall j | 0 <= j < k :: answers[j].Lost?
  {
    if answers == [] || answers[0].Sent? then 0 else 1 + FirstSent(answers[1..])
  }

  lemma FirstSentIs(answers: seq<Answer>, k: nat)
    requires k <= |answers| && (k < |answers| ==> answers[k].Sent?) && forall j | 0 <= j < k :: answers[j].Lost?
    ensures FirstSent(answers) == k
  {
  }

  /** The camera gets a span of the free space and does not write past it. */
  function Clipped(photo: seq<byte>, space: nat): (p: seq<byte>)
    ensures |p| == Min(|photo|, space) && p <= photo
  {
    if |photo| <= space then photo else photo[..space]
  }

  function Overlaid(mem: seq<byte>, at: nat, data: seq<byte>): (m: seq<byte>)
    ensures |m| == |mem|
  {
    seq(|mem|, p requires 0 <= p < |mem| => if at <= p < at + |data| then data[p - at] else mem[p])
  }

  function Written(a: Answer): seq<byte> {
    if a.Sent? then a.photo + a.more else a.scribble
  }

  /** The buffer after some requests, each of which overwrites the same free space. */
  function AfterAnswers(mem: seq<byte>, free: nat, answers: seq<Answer>): (m: seq<byte>)
    ensures |m| == |mem|
  {
    if answers == [] then mem
    else Overlaid(AfterAnswers(mem, free, answers[..|answers| - 1]), free, Written(answers[|answers| - 1]))
  }

  lemma {:induction false} UsedSpaceKept(mem: seq<byte>, free: nat, answers: seq<Answer>)
    requires free <= |mem|
    ensures AfterAnswers(mem, free, answers)[..free] == mem[..free]
  {
    if answers == [] {
    } else {
      UsedSpaceKept(mem, free, answers[..|answers| - 1]);
      var before := AfterAnswers(mem, free, answers[..|answers| - 1]);
      assert Overlaid(before, free, Written(answers[|answers| - 1]))[..free] == before[..free];
    }
  }

  lemma PhotoReceived(mem: seq<byte>, free: nat, answers: seq<Answer>)
    requires free <= |mem| && answers != [] && answers[|answers| - 1].Sent?
    ensures var photo := Clipped(answers[|answers| - 1].photo, |mem| - free);
            AfterAnswers(mem, free, answers)[free..free + |photo|] == photo
  {
  }

  // ---------- What commands do ----------

  datatype State = State(free: nat, events: seq<Event>, files: map<Path, seq<byte>>)

  function Space(s: State): nat {
    if s.free <= PHOTO_BUFFER_SIZE then PHOTO_BUFFER_SIZE - s.free else 0
  }

  /** What comes of a download: the first photo among the answers of the camera, if there is one. */
  function DownloadOf(id: byte, answers: seq<Answer>, space: nat): Event {
    var k := FirstSent(answers);
    if k < |answers| then Downloaded(id, Clipped(answers[k].photo, space)) else NotDownloaded(id)
  }

  /** What a save writes, before the file system cuts it short. */
  function ToSave(events: seq<Event>, id: byte): seq<byte> {
    if id < BUFFERS_COUNT then Saved(Held(events, id)) else []
  }

  function Done(s: State, c: Command, a: Surroundings): State {
    match c
    case DownloadPhoto(id) =>
      if id >= BUFFERS_COUNT then s
      else
        var e := DownloadOf(id, a.answers, Space(s));
        State(if e.Downloaded? then s.free + |e.photo| else s.free, s.events + [e], s.files)
    case SavePhoto(id, path) =>
      if !a.isOpen then s else s.(files := s.files[path := Clipped(ToSave(s.events, id), a.accepted)])
    case Reset => State(0, s.events + [WasReset], s.files)
  }

  function AfterCommands(s: State, commands: seq<Command>, around: seq<Surroundings>): State
    requires |commands| == |around|
  {
    if commands == [] then s
    else
      var last := |commands| - 1;
      Done(AfterCommands(s, commands[..last], around[..last]), commands[last], around[last])
  }

  /** The commands before number `k`. */
  function Before(s: State, commands: seq<Command>, around: seq<Surroundings>, k: nat): State
    requires k <= |commands| == |around|
  {
    AfterCommands(s, commands[..k], around[..k])
  }

  lemma OneMore(s: State, commands: seq<Command>, around: seq<Surroundings>, k: nat)
    requires k < |commands| == |around|
    ensures Before(s, commands, around, k + 1) == Done(Before(s, commands, around, k), commands[k], around[k])
  {
    assert commands[..k + 1][..k] == commands[..k] && around[..k + 1][..k] == around[..k];
  }

  /** A command that changes what a buffer holds. */
  predicate Touches(c: Command, id: byte) {
    c.Reset? || (c.DownloadPhoto? && c.id == id)
  }

  lemma HeldUnlessTouched(s: State, c: Command, a: Surroundings, id: byte)
    requires !Touches(c, id)
    ensures Held(Done(s, c, a).events, id) == Held(s.events, id)
  {
    hide Held, Saved, FirstSent, Clipped;
    if c.DownloadPhoto? && c.id < BUFFERS_COUNT { HeldAfter(s.events, DownloadOf(c.id, a.answers, Space(s)), id); }
  }

  lemma {:induction false} HeldUntilTouched(s: State, commands: seq<Command>, around: seq<Surroundings>, j: nat, k: nat, id: byte)
    requires j <= k <= |commands| == |around| && forall i | j <= i < k :: !Touches(commands[i], id)
    ensures Held(Before(s, commands, around, k).events, id) == Held(Before(s, commands, around, j).events, id)
  {
    hide Held, Done, Before;
    if j == k {
    } else {
      HeldUntilTouched(s, commands, around, j, k - 1, id);
      OneMore(s, commands, around, k - 1);
      HeldUnlessTouched(Before(s, commands, around, k - 1), commands[k - 1], around[k - 1], id);
    }
  }

  /** The command saves to a file that no later command writes to. */
  predicate LastWriter(commands: seq<Command>, around: seq<Surroundings>, k: nat)
    requires k < |commands| == |around|
  {
    commands[k].SavePhoto? && around[k].isOpen
    && forall j | k < j < |commands| && commands[j].SavePhoto? && around[j].isOpen :: commands[j].path != commands[k].path
  }

  lemma {:induction false} FileStays(s: State, commands: seq<Command>, around: seq<Surroundings>, k: nat, n: nat)
    requires k < n <= |commands| == |around| && LastWriter(commands, around, k)
    ensures var files := Before(s, commands, around, n).files;
            && commands[k].path in files
            && files[commands[k].path] == Clipped(ToSave(Before(s, commands, around, k).events, commands[k].id), around[k].accepted)
  {
    hide Held, Saved;
    OneMore(s, commands, around, n - 1);
    if n == k + 1 {
    } else {
      FileStays(s, commands, around, k, n - 1);
      hide Before, AfterCommands, ToSave;
    }
  }

  /** The file a command writes last holds what its buffer held then, as far as the file system took it. */
  lemma FileOfLastWriter(s: State, commands: seq<Command>, around: seq<Surroundings>, k: nat)
    requires k < |commands| == |around| && LastWriter(commands, around, k)
    ensures var files := AfterCommands(s, commands, around).files;
            && commands[k].path in files
            && files[commands[k].path] == Clipped(ToSave(Before(s, commands, around, k).events, commands[k].id), around[k].accepted)
  {
    assert commands[..|commands|] == commands && around[..|around|] == around;
    FileStays(s, commands, around, k, |commands|);
  }

  /**
    * The `j`-th command downloads into a buffer, the `k`-th saves it, nothing in between touches the buffer and nothing
    * afterwards writes the file: it holds the first photo the camera sent in answer to the `j`-th command, or the
    * marker for a failure if it sent none in three.
    */
  lemma SavedAsDownloaded(s: State, commands: seq<Command>, around: seq<Surroundings>, j: nat, k: nat)
    requires j < k < |commands| == |around| && LastWriter(commands, around, k)
    requires commands[j] == DownloadPhoto(commands[k].id) && commands[k].id < BUFFERS_COUNT
    requires forall i | j < i < k :: !Touches(commands[i], commands[k].id)
    ensures var files, answers := AfterCommands(s, commands, around).files, around[j].answers;
            var first := FirstSent(answers);
            && commands[k].path in files
            && files[commands[k].path]
               == Clipped(if first < |answers| then Clipped(answers[first].photo, Space(Before(s, commands, around, j)))
                          else FAILED_MARKER, around[k].accepted)
  {
    hide AfterCommands, Before;
    FileOfLastWriter(s, commands, around, k);
    HeldUntilTouched(s, commands, around, j + 1, k, commands[k].id);
    OneMore(s, commands, around, j);
    var before := Before(s, commands, around, j);
    HeldAfter(before.events, DownloadOf(commands[k].id, around[j].answers, Space(before)), commands[k].id);
  }

  /** After a reset, or from the start, a buffer that nothing touched is saved as the marker for an empty one. */
  lemma SavedAsEmpty(s: State, commands: seq<Command>, around: seq<Surroundings>, j: nat, k: nat)
    requires j <= k < |commands| == |around| && LastWriter(commands, around, k) && commands[k].id < BUFFERS_COUNT
    requires if j == 0 then s.events == [] else commands[j - 1] == Reset
    requires forall i | j <= i < k :: !Touches(commands[i], commands[k].id)
    ensures var files := AfterCommands(s, commands, around).files;
            commands[k].path in files && files[commands[k].path] == Clipped(EMPTY_MARKER, around[k].accepted)
  {
    assert Before(s, commands, around, 0) == s;
    assert Held([], commands[k].id) == Nothing;
    hide AfterCommands, Before, Held;
    FileOfLastWriter(s, commands, around, k);
    HeldUntilTouched(s, commands, around, j, k, commands[k].id);
    if j > 0 {
      OneMore(s, commands, around, j - 1);
      HeldAfter(Before(s, commands, around, j - 1).events, WasReset, commands[k].id);
    }
  }

  /** A photo that fits the free space, saved into a file that takes it, is in the file byte for byte. */
  lemma WholePhotoSaved(s: State, commands: seq<Command>, around: seq<Surroundings>, j: nat, k: nat)
    requires j < k < |commands| == |around| && LastWriter(commands, around, k)
    requires commands[j] == DownloadPhoto(commands[k].id) && commands[k].id < 100
    requires forall i | j < i < k :: !Touches(commands[i], commands[k].id)
    requires |around[j].answers| == 3
    ensures var files, answers := AfterCommands(s, commands, around).files, around[j].answers;
            && commands[k].path in files
            && (forall n | 0 <= n < 3 && answers[n].Sent? && (forall m | 0 <= m < n :: answers[m].Lost?)
                           && |answers[n].photo| + Before(s, commands, around, j).free <= 0x80000
                           && |answers[n].photo| <= around[k].accepted ::
                 files[commands[k].path] == answers[n].photo)
            && ((forall n | 0 <= n < 3 :: answers[n].Lost?) && around[k].accepted >= 7 ==>
                 files[commands[k].path] == [70, 97, 105, 108, 101, 100, 0])
  {
    SavedAsDownloaded(s, commands, around, j, k);
    hide AfterCommands, Before, FirstSent;
    var answers := around[j].answers;
    forall n | 0 <= n < 3 && answers[n].Sent? && (forall m | 0 <= m < n :: answers[m].Lost?) ensures FirstSent(answers) == n {
      FirstSentIs(answers, n);
    }
    if forall n | 0 <= n < 3 :: answers[n].Lost? { FirstSentIs(answers, 3); }
  }

  /** A buffer without a download is saved as the word "Empty" with its terminating zero. */
  lemma EmptyWordSaved(s: State, commands: seq<Command>, around: seq<Surroundings>, j: nat, k: nat)
    requires j <= k < |commands| == |around| && LastWriter(commands, around, k) && commands[k].id < 100 && around[k].accepted >= 6
    requires if j == 0 then s.events == [] else commands[j - 1] == Reset
    requires forall i | j <= i < k :: !Touches(commands[i], commands[k].id)
    ensures var files := AfterCommands(s, commands, around).files;
            commands[k].path in files && files[commands[k].path] == [69, 109, 112, 116, 121, 0]
  {
    SavedAsEmpty(s, commands, around, j, k);
  }

  // ---------- The service ----------

  class PhotoService {
    const photoBuffer: array<byte>
    const bufferInfos: array<BufferInfo>
    var freeSpace: nat
    /** The files written so far. */
    var files: map<Path, seq<byte>>
    ghost var events: seq<Event>

    ghost predicate Valid()
      reads this, photoBuffer, bufferInfos
    {
      Consistent(photoBuffer[..], freeSpace, bufferInfos[..], events)
    }

    ghost function View(): State
      reads this
    {
      State(freeSpace, events, files)
    }

    constructor ()
      ensures Valid() && View() == State(0, [], map[]) && fresh(photoBuffer) && fresh(bufferInfos)
    {
      photoBuffer := new byte[PHOTO_BUFFER_SIZE];
      bufferInfos := new BufferInfo[BUFFERS_COUNT](i => BufferInfo(Empty, 0, 0));
      freeSpace, files, events := 0, map[], [];
    }

    /** One request to the camera. */
    method Receive(a: Answer) returns (r: OSResult, size: nat)
      requires freeSpace <= photoBuffer.Length
      modifies photoBuffer
      ensures photoBuffer[..] == Overlaid(old(photoBuffer[..]), freeSpace, Written(a))
      ensures r == if a.Sent? then Success else CameraError(a.code)
      ensures size == if a.Sent? then |Clipped(a.photo, photoBuffer.Length - freeSpace)| else 0
    {
      var data := Clipped(Written(a), photoBuffer.Length - freeSpace);
      for i := 0 to |data|
        invariant forall p | 0 <= p < photoBuffer.Length ::
                    photoBuffer[p] == if freeSpace <= p < freeSpace + i then data[p - freeSpace] else old(photoBuffer[p])
      {
        photoBuffer[freeSpace + i] := data[i];
      }
      match a
      case Sent(photo, _) => return Success, |Clipped(photo, photoBuffer.Length - freeSpace)|;
      case Lost(_, code) => return CameraError(code), 0;
    }

    /** At most three requests, and none after the first that is answered with a photo. */
    method ReceiveWithRetries(answers: seq<Answer>) returns (r: OSResult, size: nat)
      requires freeSpace <= photoBuffer.Length && |answers| == TRIES
      modifies photoBuffer
      ensures var k := FirstSent(answers);
              && photoBuffer[..] == AfterAnswers(old(photoBuffer[..]), freeSpace, answers[..if k < TRIES then k + 1 else TRIES])
              && r == (if k < TRIES then Success else CameraError(answers[TRIES - 1].code))
              && size == if k < TRIES then |Clipped(answers[k].photo, photoBuffer.Length - freeSpace)| else 0
    {
      hide FirstSent, Overlaid, Clipped;
      r, size := CameraError(0), 0;
      for i := 0 to TRIES
        invariant forall j | 0 <= j < i :: answers[j].Lost?
        invariant photoBuffer[..] == AfterAnswers(old(photoBuffer[..]), freeSpace, answers[..i])
        invariant i > 0 ==> r == CameraError(answers[i - 1].code) && size == 0
      {
        assert answers[..i + 1][..i] == answers[..i];
        r, size := Receive(answers[i]);
        if r == Success {
          FirstSentIs(answers, i);
          return;
        }
      }
      FirstSentIs(answers, TRIES);
    }

    method Download(id: byte, answers: seq<Answer>) returns (r: OSResult)
      requires Valid() && |answers| == TRIES
      modifies this`freeSpace, this`events, photoBuffer, bufferInfos
      ensures Valid() && files == old(files)
      ensures id >= BUFFERS_COUNT ==>
                r == InvalidArgument && events == old(events) && freeSpace == old(freeSpace) && photoBuffer[..] == old(photoBuffer[..])
      ensures id < BUFFERS_COUNT && FirstSent(answers) == TRIES ==>
                && r == CameraError(answers[TRIES - 1].code) && events == old(events) + [NotDownloaded(id)]
                && freeSpace == old(freeSpace) && photoBuffer[..] == AfterAnswers(old(photoBuffer[..]), old(freeSpace), answers)
      ensures id < BUFFERS_COUNT && FirstSent(answers) < TRIES ==>
                (var k := FirstSent(answers);
                 var photo := Clipped(answers[k].photo, PHOTO_BUFFER_SIZE - old(freeSpace));
                 && r == Success && events == old(events) + [Downloaded(id, photo)] && freeSpace == old(freeSpace) + |photo|
                 && photoBuffer[..] == AfterAnswers(old(photoBuffer[..]), old(freeSpace), answers[..k + 1]))
    {
      hide Shows, Held, FirstSent, AfterAnswers, Clipped;
      if id >= BUFFERS_COUNT {
        return InvalidArgument;
      }
      ghost var mem, infos := photoBuffer[..], bufferInfos[..];
      bufferInfos[id] := BufferInfo(Downloading, 0, 0);
      var size;
      r, size := ReceiveWithRetries(answers);
      ghost var k := FirstSent(answers);
      UsedSpaceKept(mem, freeSpace, answers[..if k < TRIES then k + 1 else TRIES]);
      if r == Success {
        bufferInfos[id] := BufferInfo(Occupied, freeSpace, size);
        PhotoReceived(mem, freeSpace, answers[..k + 1]);
        ghost var e := Downloaded(id, Clipped(answers[k].photo, PHOTO_BUFFER_SIZE - freeSpace));
        DownloadConsistent(mem, photoBuffer[..], freeSpace, freeSpace + size, infos, events, id, e, bufferInfos[id]);
        assert bufferInfos[..] == infos[id := bufferInfos[id]];
        hide Consistent;
        events := events + [e];
        freeSpace := freeSpace + size;
        return Success;
      }
      assert answers[..TRIES] == answers;
      bufferInfos[id] := BufferInfo(Failed, 0, 0);
      DownloadConsistent(mem, photoBuffer[..], freeSpace, freeSpace, infos, events, id, NotDownloaded(id), bufferInfos[id]);
      assert bufferInfos[..] == infos[id := bufferInfos[id]];
      hide Consistent;
      events := events + [NotDownloaded(id)];
    }

    method ResetBuffers() returns (r: OSResult)
      requires Valid()
      modifies this`freeSpace, this`events, bufferInfos
      ensures Valid() && r == Success && View() == State(0, old(events) + [WasReset], old(files))
    {
      hide Shows, Held;
      freeSpace := 0;
      for i := 0 to BUFFERS_COUNT
        invariant freeSpace == 0 && events == old(events)
        invariant forall k | 0 <= k < i :: bufferInfos[k].status == Empty
      {
        bufferInfos[i] := BufferInfo(Empty, 0, 0);
      }
      ResetConsistent(photoBuffer[..], bufferInfos[..], events);
      events := events + [WasReset];
      return Success;
    }

    /**
      * The file is created, and emptied, before anything else is looked at; `isOpen` says whether it could be.
      * Of what is written the file system takes the first `accepted` bytes, and nobody looks at how many those are.
      */
    method Save(id: byte, path: Path, isOpen: bool, accepted: nat) returns (r: OSResult)
      requires Valid()
      modifies this`files
      ensures Valid()
      ensures !isOpen ==> r == IOError && files == old(files)
      ensures isOpen && id >= BUFFERS_COUNT ==> r == InvalidArgument && files == old(files)[path := []]
      ensures isOpen && id < BUFFERS_COUNT ==>
                files == old(files)[path := Clipped(Saved(Held(events, id)), accepted)]
                && r == if Held(events, id).Photo? then Success else BufferNotAvailable
    {
      if !isOpen {
        return IOError;
      }
      files := files[path := []];
      if id >= BUFFERS_COUNT {
        return InvalidArgument;
      }
      var buffer := bufferInfos[id];
      ShownBuffer(photoBuffer[..], freeSpace, bufferInfos[..], events, id);
      hide Held, Consistent, Clipped;
      if buffer.status == Empty {
        files := files[path := Clipped(EMPTY_MARKER, accepted)];
        return BufferNotAvailable;
      }
      if buffer.status == Failed {
        files := files[path := Clipped(FAILED_MARKER, accepted)];
        return BufferNotAvailable;
      }
      files := files[path := Clipped(photoBuffer[buffer.offset..buffer.offset + buffer.size], accepted)];
      return Success;
    }

    method Execute(c: Command, a: Surroundings)
      requires Valid() && |a.answers| == TRIES
      modifies this, photoBuffer, bufferInfos
      ensures Valid() && View() == Done(old(View()), c, a)
    {
      assert freeSpace <= PHOTO_BUFFER_SIZE;
      hide Consistent, Held, FirstSent, AfterAnswers, Clipped, Saved;
      match c
      case DownloadPhoto(id) => var r := Download(id, a.answers);
      case SavePhoto(id, path) =>
        var r := Save(id, path, a.isOpen, a.accepted);
        NothingToClip(a.accepted);
      case Reset => var r := ResetBuffers();
    }

    /** The commands of the queue that concern buffers, one at a time. */
    method TaskProc(commands: seq<Command>, around: seq<Surroundings>)
      requires Valid() && |around| == |commands| && forall a | a in around :: |a.answers| == TRIES
      modifies this, photoBuffer, bufferInfos
      ensures Valid() && View() == AfterCommands(old(View()), commands, around)
    {
      hide Consistent, Done;
      for n := 0 to |commands|
        invariant Valid() && View() == AfterCommands(old(View()), commands[..n], around[..n])
      {
        assert commands[..n + 1][..n] == commands[..n] && around[..n + 1][..n] == around[..n];
        assert around[n] in around;
        Execute(commands[n], around[n]);
      }
      assert commands[..|commands|] == commands && around[..|around|] == around;
    }
  }

  lemma NothingToClip(n: nat)
    ensures Clipped([], n) == []
  {
  }
}
