/** The global state of the Dolby metadata driver: the START/STOP events that follow the video
    source, and the coupling between the picture mode and the precision-detail (PD) setting.
    Line numbers refer to the file `OTT.c`. */
module DolbyDriver {

  const RET_OK := 0
  const RET_ERROR := -1
  const EBUSY := -16
  const ENOMEM := -12
  const EINVAL := -22

  datatype DolbyMode = DefaultMode | HdmiMode | OttMode | RfMode | HdmiLLMode

  datatype Source = Hdmi | Vdec | OtherSource

  datatype HdrType = Dolby | DolbyRf | DolbyLL | OtherHdr

  datatype PictureMode = Vivid | Bright | Dark | Standard | Game

  // The mode byte of a picture-mode request.
  datatype RequestedMode = MovieDark | MovieBrightness | VividMode | StandardMode | GameMode | Unknown

  datatype Event =
    | Start(byte: nat, win: nat)
    | Stop(win: nat)
    | PD(payload: int, win: nat)
    | PQMode(picture: PictureMode, win: nat)

  datatype State = State(openCount: int, hasPriv: bool, mode: DolbyMode, pd: int, picture: PictureMode,
                         events: seq<Event>)

  const POWER_ON := State(0, false, DefaultMode, 0, Bright, [])

  datatype Request =
    | Open(enoughMemory: bool)
    | Release
    | Vsc(win: nat, source: Source, hdr: HdrType, wellFormed: bool)
    | SetPD(value: int, ipcOk: bool)
    | SetPicture(requested: RequestedMode, win: nat, ipcOk: bool)

  function ModeByte(m: DolbyMode): nat {
    match m
    case HdmiMode => 2
    case OttMode => 0
    case RfMode => 1
    case HdmiLLMode => 3
    case DefaultMode => 255
  }

  function Entered(source: Source, hdr: HdrType): DolbyMode {
    match hdr
    case Dolby => if source.Hdmi? then HdmiMode else OttMode
    case DolbyRf => RfMode
    case DolbyLL => HdmiLLMode
    case OtherHdr => DefaultMode
  }

  function Chosen(r: RequestedMode): PictureMode {
    match r
    case MovieDark => Dark
    case MovieBrightness => Bright
    case VividMode => Vivid
    case StandardMode => Standard
    case GameMode => Game
    case Unknown => Vivid
  }

  predicate PDForbidden(p: PictureMode) {
    p.Dark? || p.Game?
  }

  // The low byte of a control value.
  function Byte(value: int): int {
    value % 256
  }

  function AfterVsc(s: State, win: nat, source: Source, hdr: HdrType): State {
    if source.OtherSource? then s
    else
      var stopped := if s.mode.DefaultMode? then [] else [Stop(win)];
      var entered := Entered(source, hdr);
      s.(mode := entered,
         events := s.events + stopped + if entered.DefaultMode? then [] else [Start(ModeByte(entered), win)])
  }

  function AfterSetPD(s: State, value: int, ipcOk: bool): State {
    if (PDForbidden(s.picture) && Byte(value) != 0) || !ipcOk then s
    else s.(pd := value, events := if s.hasPriv then s.events + [PD(Byte(value), 0)] else s.events)
  }

  function AfterSetPicture(s: State, requested: RequestedMode, win: nat, ipcOk: bool): State {
    var p := Chosen(requested);
    var stored := s.(picture := p);
    if PDForbidden(p) && s.pd != 0 && !ipcOk then stored
    else
      var off := if PDForbidden(p) && s.pd != 0 then [PD(0, win)] else [];
      stored.(pd := if PDForbidden(p) then 0 else s.pd, events := s.events + off + [PQMode(p, win)])
  }

  function Step(s: State, q: Request): State {
    match q
    case Open(enough) => if s.openCount != 0 || !enough then s else s.(openCount := s.openCount + 1, hasPriv := true)
    case Release => if s.openCount == 0 then s else s.(openCount := s.openCount - 1, hasPriv := false)
    case Vsc(win, source, hdr, ok) => if s.openCount == 0 || !s.hasPriv || !ok then s else AfterVsc(s, win, source, hdr)
    case SetPD(value, ipcOk) => AfterSetPD(s, value, ipcOk)
    case SetPicture(r, win, ipcOk) => if s.openCount == 0 || !s.hasPriv then s else AfterSetPicture(s, r, win, ipcOk)
  }

  function Run(requests: seq<Request>): State {
    if requests == [] then POWER_ON else Step(Run(requests[..|requests| - 1]), requests[|requests| - 1])
  }

  class Driver {
    var openCount: int
    var hasPriv: bool
    var mode: DolbyMode
    var pdStatus: int
    var picture: PictureMode
    ghost var events: seq<Event>

    ghost function View(): State
      reads this
    {
      State(openCount, hasPriv, mode, pdStatus, picture, events)
    }

    constructor ()
      ensures View() == POWER_ON
    {
      openCount, hasPriv, mode, pdStatus, picture, events := 0, false, DefaultMode, 0, Bright, [];
    }

    // Lines 210-254.
    method OpenDevice(enoughMemory: bool) returns (ret: int)
      modifies this
      ensures View() == Step(old(View()), Open(enoughMemory))
      ensures ret == if old(openCount) != 0 then EBUSY else if !enoughMemory then ENOMEM else RET_OK
    {
      if openCount != 0 {
        return EBUSY;
      }
      if !enoughMemory {
        return ENOMEM;
      }
      openCount := openCount + 1;
      hasPriv := true;
      ret := RET_OK;
    }

    // Lines 256-279. The kernel calls this for an open file only.
    method ReleaseDevice()
      requires openCount != 0
      modifies this
      ensures View() == Step(old(View()), Release)
    {
      hasPriv := false;
      openCount := openCount - 1;
    }

    // Lines 662-736.
    method VscEvent(win: nat, source: Source, hdr: HdrType, wellFormed: bool) returns (ret: int)
      modifies this
      ensures View() == Step(old(View()), Vsc(win, source, hdr, wellFormed))
      ensures ret == if old(openCount) == 0 || !old(hasPriv) || !wellFormed then RET_ERROR else RET_OK
    {
      if openCount == 0 || !wellFormed || !hasPriv {
        return RET_ERROR;
      }
      if source.Hdmi? || source.Vdec? {
        if !mode.DefaultMode? {
          mode := DefaultMode;
          events := events + [Stop(win)];
        }
        match hdr {
          case Dolby =>
            var byte;
            if source.Hdmi? {
              byte, mode := 2, HdmiMode;
            } else {
              byte, mode := 0, OttMode;
            }
            events := events + [Start(byte, win)];
          case DolbyRf =>
            mode := RfMode;
            events := events + [Start(1, win)];
          case DolbyLL =>
            mode := HdmiLLMode;
            events := events + [Start(3, win)];
          case OtherHdr =>
        }
      }
      ret := RET_OK;
    }

    // Lines 821-854, with the PD case of vpq_v4l2_dolby_event (746-748, 803-818).
    method SetPDControl(value: int, ipcOk: bool) returns (ret: int)
      modifies this
      ensures View() == Step(old(View()), SetPD(value, ipcOk))
      ensures ret == if (PDForbidden(old(picture)) && Byte(value) != 0) || !ipcOk then EBUSY
                     else if old(hasPriv) then RET_OK else EINVAL
    {
      var flag := Byte(value);
      if (picture.Dark? || picture.Game?) && flag != 0 {
        return EBUSY;
      }
      if !ipcOk {
        ret := EBUSY;
      } else {
        if hasPriv {
          events := events + [PD(flag, 0)];
          ret := RET_OK;
        } else {
          ret := EINVAL;
        }
        pdStatus := value;
      }
    }

    // Lines 890-894, 935-1001 and 1126-1132, when the copies from user space succeed.
    method SetPictureMode(requested: RequestedMode, win: nat, ipcOk: bool) returns (ret: int)
      modifies this
      ensures View() == Step(old(View()), SetPicture(requested, win, ipcOk))
      ensures ret == if old(openCount) == 0 || !old(hasPriv) then EINVAL
                     else if PDForbidden(Chosen(requested)) && old(pdStatus) != 0 && !ipcOk then EBUSY else RET_OK
    {
      if openCount == 0 || !hasPriv {
        return EINVAL;
      }
      var p := Vivid;
      match requested {
        case MovieDark => p := Dark;
        case MovieBrightness => p := Bright;
        case VividMode => p := Vivid;
        case StandardMode => p := Standard;
        case GameMode => p := Game;
        case Unknown => p := Vivid;
      }
      picture := p;
      if (p.Dark? || p.Game?) && pdStatus != 0 {
        if !ipcOk {
          return EBUSY;
        }
        events := events + [PD(0, win)];
        pdStatus := 0;
      }
      events := events + [PQMode(p, win)];
      ret := RET_OK;
    }
  }

  // ---- START and STOP ----

  // The mode that the log says the receiver is in; None when a START or STOP came out of turn.
  datatype Protocol = Off | On(mode: nat) | Broken

  function Follow(events: seq<Event>): Protocol {
    if events == [] then Off
    else
      var before := Follow(events[..|events| - 1]);
      match events[|events| - 1]
      case Start(m, _) => if before.Off? then On(m) else Broken
      case Stop(_) => if before.On? then Off else Broken
      case PD(_, _) => before
      case PQMode(_, _) => before
  }

  lemma FollowAppend(events: seq<Event>, e: Event)
    ensures Follow(events + [e]) ==
            match e
            case Start(m, _) => if Follow(events).Off? then On(m) else Broken
            case Stop(_) => if Follow(events).On? then Off else Broken
            case PD(_, _) => Follow(events)
            case PQMode(_, _) => Follow(events)
  {
    assert (events + [e])[..|events|] == events;
  }

  // The log alternates, and the driver's mode is the one of the last START.
  ghost predicate InStep(s: State) {
    Follow(s.events) == if s.mode.DefaultMode? then Off else On(ModeByte(s.mode))
  }

  lemma VscInStep(s: State, win: nat, source: Source, hdr: HdrType)
    requires InStep(s)
    ensures InStep(AfterVsc(s, win, source, hdr))
  {
    if !source.OtherSource? {
      var stopped := if s.mode.DefaultMode? then s.events else s.events + [Stop(win)];
      FollowAppend(s.events, Stop(win));
      var entered := Entered(source, hdr);
      FollowAppend(stopped, Start(ModeByte(entered), win));
      assert s.events + [] == s.events && stopped + [] == stopped;
    }
  }

  lemma PictureInStep(s: State, requested: RequestedMode, win: nat, ipcOk: bool)
    requires InStep(s)
    ensures InStep(AfterSetPicture(s, requested, win, ipcOk))
  {
    var p := Chosen(requested);
    FollowAppend(s.events, PD(0, win));
    FollowAppend(s.events, PQMode(p, win));
    FollowAppend(s.events + [PD(0, win)], PQMode(p, win));
    assert s.events + [] == s.events;
  }

  // Across all requests and open/release cycles the START/STOP events alternate, beginning with
  // START, and the driver is in a Dolby mode exactly when the last of them was the START for it.
  lemma {:induction false} EventsAlternate(requests: seq<Request>)
    ensures InStep(Run(requests))
  {
    if requests != [] {
      var s, q := Run(requests[..|requests| - 1]), requests[|requests| - 1];
      EventsAlternate(requests[..|requests| - 1]);
      match q
      case Vsc(win, source, hdr, _) => VscInStep(s, win, source, hdr);
      case SetPicture(r, win, ipcOk) => PictureInStep(s, r, win, ipcOk);
      case SetPD(value, _) => FollowAppend(s.events, PD(Byte(value), 0));
      case Open(_) =>
      case Release =>
    }
  }

  // The mode byte tells the modes apart, so a log in step determines the driver's mode.
  lemma LogDeterminesMode(s: State, t: State)
    requires InStep(s) && InStep(t) && Follow(s.events) == Follow(t.events)
    ensures s.mode == t.mode
  {
  }

  // The driver keeps private data for its one open file only.
  lemma {:induction false} OpenAtMostOnce(requests: seq<Request>)
    ensures var s := Run(requests); s.openCount == if s.hasPriv then 1 else 0
  {
    if requests != [] {
      OpenAtMostOnce(requests[..|requests| - 1]);
    }
  }

  lemma RunAppend(requests: seq<Request>, q: Request)
    ensures Run(requests + [q]) == Step(Run(requests), q)
  {
    assert (requests + [q])[..|requests|] == requests;
  }

  // What a START says for each kind of source.
  function StartFor(source: Source, hdr: HdrType, win: nat): seq<Event> {
    match hdr
    case Dolby => if source.Hdmi? then [Start(2, win)] else [Start(0, win)]
    case DolbyRf => [Start(1, win)]
    case DolbyLL => [Start(3, win)]
    case OtherHdr => []
  }

  // After any run that leaves the device open: a source event stops what the log says is going on,
  // and starts what the event asks for. HDMI with Dolby is mode byte 2, VDEC with Dolby 0, and the
  // other two types are 1 and 3 on either source; any other type leaves the receiver off.
  lemma SourceIsPosted(requests: seq<Request>, win: nat, source: Source, hdr: HdrType)
    requires Run(requests).hasPriv && !source.OtherSource?
    ensures var before, after := Run(requests).events, Run(requests + [Vsc(win, source, hdr, true)]).events;
            && after == before + (if Follow(before).On? then [Stop(win)] else []) + StartFor(source, hdr, win)
            && (hdr.Dolby? && source.Hdmi? ==> Follow(after) == On(2))
            && (hdr.Dolby? && source.Vdec? ==> Follow(after) == On(0))
            && (hdr.DolbyRf? ==> Follow(after) == On(1))
            && (hdr.DolbyLL? ==> Follow(after) == On(3))
            && (hdr.OtherHdr? ==> Follow(after) == Off)
  {
    OpenAtMostOnce(requests);
    RunAppend(requests, Vsc(win, source, hdr, true));
    EventsAlternate(requests);
    EventsAlternate(requests + [Vsc(win, source, hdr, true)]);
  }

  // A source event on a closed device, a malformed one, and one from another source change nothing.
  lemma OtherEventsIgnored(requests: seq<Request>, win: nat, source: Source, hdr: HdrType, wellFormed: bool)
    requires !Run(requests).hasPriv || source.OtherSource? || !wellFormed
    ensures Run(requests + [Vsc(win, source, hdr, wellFormed)]) == Run(requests)
  {
    RunAppend(requests, Vsc(win, source, hdr, wellFormed));
  }

  // ---- PD and picture mode ----

  // After any run that leaves the device open: which picture mode a request stands for. It is
  // announced last, unless PD had to be switched off first and the mailbox failed; PD stays as it
  // was in the modes that allow it.
  lemma PictureIsPosted(requests: seq<Request>, r: RequestedMode, win: nat, ipcOk: bool, p: PictureMode)
    requires Run(requests).hasPriv
    requires (r, p) in {(MovieDark, Dark), (MovieBrightness, Bright), (VividMode, Vivid), (StandardMode, Standard),
                        (GameMode, Game), (Unknown, Vivid)}
    ensures var s, t := Run(requests), Run(requests + [SetPicture(r, win, ipcOk)]);
            && t.picture == p
            && (p == Bright || p == Vivid || p == Standard ==> t.pd == s.pd && t.events == s.events + [PQMode(p, win)])
            && ((p == Dark || p == Game) && s.pd == 0 ==> t.pd == 0 && t.events == s.events + [PQMode(p, win)])
            && ((p == Dark || p == Game) && s.pd != 0 && ipcOk ==>
                  t.pd == 0 && t.events == s.events + [PD(0, win), PQMode(p, win)])
            && ((p == Dark || p == Game) && s.pd != 0 && !ipcOk ==> t.pd == s.pd && t.events == s.events)
  {
    OpenAtMostOnce(requests);
    RunAppend(requests, SetPicture(r, win, ipcOk));
  }

  // After any run: a value whose low byte is not zero is refused in the dark and game modes, and every
  // value when the mailbox fails; any other value is stored whole, and its low byte announced if the
  // device is open.
  lemma PDIsPosted(requests: seq<Request>, value: int, ipcOk: bool)
    ensures var s, t := Run(requests), Run(requests + [SetPD(value, ipcOk)]);
            if !ipcOk || ((s.picture == Dark || s.picture == Game) && value % 256 != 0) then t == s
            else t == s.(pd := value, events := s.events + if s.hasPriv then [PD(value % 256, 0)] else [])
  {
    RunAppend(requests, SetPD(value, ipcOk));
  }

  function LastPD(events: seq<Event>): int {
    if events == [] then 0
    else
      match events[|events| - 1]
      case PD(payload, _) => payload
      case _ => LastPD(events[..|events| - 1])
  }

  lemma LastPDAppend(events: seq<Event>, e: Event)
    ensures LastPD(events + [e]) == if e.PD? then e.payload else LastPD(events)
  {
    assert (events + [e])[..|events|] == events;
  }

  // PD is off in the modes that forbid it, and its value is the one that was last announced.
  ghost predicate Coupled(s: State) {
    (PDForbidden(s.picture) ==> s.pd == 0) && s.pd == LastPD(s.events)
  }

  // The requests that keep the coupling, from the guards of the branches they take: a PD value that
  // is passed on fits a byte (or is no change, while no device is open to announce it), and the
  // mailbox answers when a forbidding mode is chosen while PD is on.
  predicate Harmless(s: State, q: Request) {
    match q
    case SetPD(value, ipcOk) =>
      (ipcOk && !(PDForbidden(s.picture) && Byte(value) != 0)) ==> if s.hasPriv then 0 <= value < 256 else value == s.pd
    case SetPicture(r, _, ipcOk) =>
      (s.openCount != 0 && s.hasPriv && PDForbidden(Chosen(r)) && s.pd != 0) ==> ipcOk
    case _ => true
  }

  lemma VscKeepsPD(s: State, win: nat, source: Source, hdr: HdrType)
    ensures LastPD(AfterVsc(s, win, source, hdr).events) == LastPD(s.events)
  {
    if !source.OtherSource? {
      var stopped := if s.mode.DefaultMode? then s.events else s.events + [Stop(win)];
      LastPDAppend(s.events, Stop(win));
      LastPDAppend(stopped, Start(ModeByte(Entered(source, hdr)), win));
      assert s.events + [] == s.events && stopped + [] == stopped;
    }
  }

  lemma PictureCoupledIff(s: State, r: RequestedMode, win: nat, ipcOk: bool)
    requires Coupled(s) && s.openCount != 0 && s.hasPriv
    ensures Coupled(AfterSetPicture(s, r, win, ipcOk)) <==> Harmless(s, SetPicture(r, win, ipcOk))
  {
    var p := Chosen(r);
    LastPDAppend(s.events, PD(0, win));
    LastPDAppend(s.events, PQMode(p, win));
    LastPDAppend(s.events + [PD(0, win)], PQMode(p, win));
    assert s.events + [] == s.events;
  }

  lemma PDCoupledIff(s: State, value: int, ipcOk: bool)
    requires Coupled(s)
    ensures Coupled(AfterSetPD(s, value, ipcOk)) <==> Harmless(s, SetPD(value, ipcOk))
  {
    LastPDAppend(s.events, PD(Byte(value), 0));
  }

  // One request keeps the coupling exactly when it is harmless.
  lemma CoupledStepIff(s: State, q: Request)
    requires Coupled(s)
    ensures Coupled(Step(s, q)) <==> Harmless(s, q)
  {
    match q
    case Vsc(win, source, hdr, _) => VscKeepsPD(s, win, source, hdr);
    case SetPicture(r, win, ipcOk) =>
      if s.openCount != 0 && s.hasPriv {
        PictureCoupledIff(s, r, win, ipcOk);
      }
    case SetPD(value, ipcOk) => PDCoupledIff(s, value, ipcOk);
    case Open(_) =>
    case Release =>
  }

  ghost predicate HarmlessAt(requests: seq<Request>, k: nat)
    requires k < |requests|
  {
    Harmless(Run(requests[..k]), requests[k])
  }

  ghost predicate CoupledAfter(requests: seq<Request>, k: nat)
    requires k <= |requests|
  {
    Coupled(Run(requests[..k]))
  }

  lemma PrefixStepIff(requests: seq<Request>, k: nat)
    requires k < |requests| && CoupledAfter(requests, k)
    ensures CoupledAfter(requests, k + 1) <==> HarmlessAt(requests, k)
  {
    assert requests[..k + 1][..k] == requests[..k];
    CoupledStepIff(Run(requests[..k]), requests[k]);
  }

  lemma {:induction false} HarmlessGivesCoupled(requests: seq<Request>, k: nat)
    requires k <= |requests| && forall j: nat | j < k :: HarmlessAt(requests, j)
    ensures CoupledAfter(requests, k)
  {
    if k > 0 {
      HarmlessGivesCoupled(requests, k - 1);
      assert HarmlessAt(requests, k - 1);
      PrefixStepIff(requests, k - 1);
    }
  }

  // A run keeps the coupling throughout exactly when each of its requests is harmless.
  lemma CoupledThroughoutIff(requests: seq<Request>)
    ensures (forall k: nat | k <= |requests| :: CoupledAfter(requests, k))
       <==> (forall k: nat | k < |requests| :: HarmlessAt(requests, k))
  {
    if forall k: nat | k <= |requests| :: CoupledAfter(requests, k) {
      forall k: nat | k < |requests|
        ensures HarmlessAt(requests, k)
      {
        assert CoupledAfter(requests, k) && CoupledAfter(requests, k + 1);
        PrefixStepIff(requests, k);
      }
    }
    if forall k: nat | k < |requests| :: HarmlessAt(requests, k) {
      forall k: nat | k <= |requests|
        ensures CoupledAfter(requests, k)
      {
        HarmlessGivesCoupled(requests, k);
      }
    }
  }

  // A byte value set on an open device, or a mode chosen while the mailbox answers.
  ghost predicate Ordinary(requests: seq<Request>, k: nat)
    requires k < |requests|
  {
    match requests[k]
    case SetPD(value, _) => 0 <= value < 256 && Run(requests[..k]).hasPriv
    case SetPicture(_, _, ipcOk) => ipcOk
    case _ => true
  }

  // In the runs of an open device, byte values and an answering mailbox, PD is on only in a mode
  // that allows it, and it is the value last announced.
  lemma CoupledWhileOpen(requests: seq<Request>, k: nat)
    requires k <= |requests| && forall j: nat | j < |requests| :: Ordinary(requests, j)
    ensures CoupledAfter(requests, k)
  {
    forall j: nat | j < |requests|
      ensures HarmlessAt(requests, j)
    {
      assert Ordinary(requests, j);
    }
    CoupledThroughoutIff(requests);
  }

  // Value 256 has a zero low byte: it passes the guard of the dark mode and is stored as "on".
  lemma WideValueBreaksCoupling()
    ensures !Coupled(Run([Open(true), SetPicture(MovieDark, 0, true), SetPD(256, true)]))
  {
    var q0, q1, q2 := Open(true), SetPicture(MovieDark, 0, true), SetPD(256, true);
    assert [q0, q1, q2][..2] == [q0, q1] && [q0, q1][..1] == [q0];
    assert [q0][..0] == [];
    var s0 := Run([q0]);
    assert s0 == Step(Run([]), q0) && s0.hasPriv && s0.openCount == 1 && s0.pd == 0;
    assert Run([q0, q1]) == Step(s0, q1);
    assert Run([q0, q1]).picture == Dark;
  }

  // On a device that was never opened a byte value is stored and not announced.
  lemma ClosedDeviceBreaksCoupling()
    ensures var s := Run([SetPD(5, true)]); s.pd == 5 && s.events == [] && !Coupled(s)
  {
    assert [SetPD(5, true)][..0] == [];
  }

  // A mailbox that fails after the dark mode was stored leaves PD on in it.
  lemma FailedMailboxBreaksCoupling()
    ensures !Coupled(Run([Open(true), SetPD(1, true), SetPicture(GameMode, 0, false)]))
  {
    var q0, q1, q2 := Open(true), SetPD(1, true), SetPicture(GameMode, 0, false);
    assert [q0, q1, q2][..2] == [q0, q1] && [q0, q1][..1] == [q0];
    assert [q0][..0] == [];
    var s0 := Run([q0]);
    assert s0 == Step(Run([]), q0) && s0.hasPriv && s0.openCount == 1 && s0.picture == Bright;
    assert Run([q0, q1]) == Step(s0, q1);
    assert Run([q0, q1]).pd == 1 && Run([q0, q1]).hasPriv;
  }
}
