/** The render cache of `opendeck-broker/opendeck_broker/broker.py` against the device it writes to, and the
    frame of `.../opendeck_broker/registry.py` it is meant to show. */
module RenderCache {

  const SLOTS: nat := 6

  type Image = seq<bv8>
  type Id = string

  datatype Option<+T> = None | Some(value: T)

  // ---------------------------------------------------------------- the desired frame

  datatype Status = Idle | Busy | Retry | Error

  datatype Instance = Instance(
    live: bool, trusted: bool, permissions: seq<string>, questions: seq<string>, status: Status, title: string)

  datatype Appearance = Black | Unknown | Input | Run | IdleLook

  datatype SlotState = SlotState(slot: nat, id: Option<Id>, generation: nat, appearance: Appearance, title: string)

  /** One look for each live instance: distrust first, then open questions, then work. */
  function Display(i: Instance): Appearance {
    if !i.live then Black
    else if !i.trusted then Unknown
    else if |i.permissions| > 0 || |i.questions| > 0 then Input
    else if i.status == Busy || i.status == Retry then Run
    else IdleLook
  }

  function SlotOf(k: nat, occupant: Option<Id>, generation: nat, instances: map<Id, Instance>): SlotState {
    if occupant.Some? && occupant.value in instances && instances[occupant.value].live then
      var i := instances[occupant.value];
      SlotState(k, occupant, generation, Display(i), i.title)
    else SlotState(k, None, generation, Black, "")
  }

  /** What a key is to show: black exactly when its slot has no occupant that is there and live; else unknown when that
      is not trusted, else input when a permission or a question is open, else run when it is busy or retries, else
      idle. */
  lemma {:induction false} ShowsTheOccupant(k: nat, occupant: Option<Id>, generation: nat, instances: map<Id, Instance>)
    ensures var s := SlotOf(k, occupant, generation, instances);
      && s.slot == k && s.generation == generation
      && if occupant.Some? && occupant.value in instances && instances[occupant.value].live then
           var i := instances[occupant.value];
           var open := i.permissions != [] || i.questions != [];
           && s.id == occupant && s.title == i.title && s.appearance != Black
           && (s.appearance == Unknown <==> !i.trusted)
           && (s.appearance == Input <==> i.trusted && open)
           && (s.appearance == Run <==> i.trusted && !open && i.status in {Busy, Retry})
           && (s.appearance == IdleLook <==> i.trusted && !open && i.status in {Idle, Error})
         else s.id == None && s.appearance == Black && s.title == ""
  {
  }

  class SlotRegistry {
    var occupants: seq<Option<Id>>
    var generations: seq<nat>
    var instances: map<Id, Instance>

    ghost predicate Valid()
      reads this
    {
      |occupants| == |generations| == SLOTS
    }

    /** The six keys as they should look, in order. */
    method Frame() returns (frame: seq<SlotState>)
      requires Valid()
      ensures |frame| == SLOTS
      ensures forall k :: 0 <= k < SLOTS ==> frame[k] == SlotOf(k, occupants[k], generations[k], instances)
    {
      frame := [];
      for k := 0 to SLOTS
        invariant |frame| == k
        invariant forall j :: 0 <= j < k ==> frame[j] == SlotOf(j, occupants[j], generations[j], instances)
      {
        if occupants[k].None? || occupants[k].value !in instances || !instances[occupants[k].value].live {
          frame := frame + [SlotState(k, None, generations[k], Black, "")];
          continue;
        }
        var i := instances[occupants[k].value];
        frame := frame + [SlotState(k, occupants[k], generations[k], Display(i), i.title)];
      }
    }
  }

  // ---------------------------------------------------------------- states

  /** What the keys show, whether the device is there, what the broker thinks it has sent, and whether the
      device was there when it last looked. */
  datatype State = State(keys: seq<Option<Image>>, connected: bool, rendered: map<nat, Image>, wasConnected: bool)

  function Blank(): seq<Option<Image>> {
    seq(SLOTS, _ => None)
  }

  /** A disconnected device loses its images. */
  function Unplugged(s: State): State {
    s.(keys := Blank(), connected := false)
  }

  function PluggedIn(s: State): State {
    s.(connected := true)
  }

  /** The cache skips an image it has recorded for the key; anything else is recorded, and shown if the device is
      there and its write works. */
  function Uploaded(s: State, k: nat, image: Image, works: bool): State
    requires k < |s.keys|
  {
    if k in s.rendered && s.rendered[k] == image then s
    else s.(rendered := s.rendered[k := image],
            keys := if s.connected && works then s.keys[k := Some(image)] else s.keys)
  }

  /** `works` says which of the writes would raise no error. */
  function Rendered(s: State, images: seq<Image>, works: seq<bool>): (t: State)
    requires |images| <= |s.keys| && |works| == |images|
    ensures |t.keys| == |s.keys| && t.connected == s.connected && t.wasConnected == s.wasConnected
  {
    if |images| == 0 then s
    else
      var n := |images| - 1;
      Uploaded(Rendered(s, images[..n], works[..n]), n, images[n], works[n])
  }

  function Checked(s: State): State {
    if s.connected && !s.wasConnected then s.(rendered := map[], wasConnected := true)
    else s.(wasConnected := s.connected)
  }

  /** A tick of the main loop looks for a reconnect and then renders. */
  function Ticked(s: State, images: seq<Image>, works: seq<bool>): State
    requires |images| == |works| == |s.keys|
  {
    Rendered(Checked(s), images, works)
  }

  // ---------------------------------------------------------------- the classes

  class Device {
    var keys: seq<Option<Image>>
    var connected: bool

    constructor ()
      ensures keys == Blank() && connected
    {
      keys := Blank();
      connected := true;
    }

    /** Opens the device, if `opens` says that it can be. */
    method Connect(opens: bool) returns (ok: bool)
      modifies this`connected
      ensures ok == opens && connected == (old(connected) || opens)
    {
      if opens {
        connected := true;
      }
      return opens;
    }

    /** A connected device takes the image unless the write raises an error, a disconnected one refuses it. */
    method SetKeyImage(k: nat, image: Image, works: bool) returns (taken: bool)
      requires k < |keys|
      modifies this`keys
      ensures taken == (connected && works)
      ensures keys == if connected && works then old(keys)[k := Some(image)] else old(keys)
    {
      if !connected || !works {
        return false;
      }
      keys := keys[k := Some(image)];
      return true;
    }
  }

  type Writes = works: seq<bool> | |works| == SLOTS witness seq(SLOTS, _ => true)

  function Blacks(black: Image): (images: seq<Image>)
    ensures |images| == SLOTS
  {
    seq(SLOTS, _ => black)
  }

  class Broker {
    const device: Device?
    var rendered: map<nat, Image>
    var wasConnected: bool

    /** A broker without a device is as one whose device never comes. */
    function Value(): State
      reads this, device
    {
      if device == null then State(Blank(), false, rendered, wasConnected)
      else State(device.keys, device.connected, rendered, wasConnected)
    }

    ghost predicate Valid()
      reads this, device
    {
      if device == null then rendered == map[] && !wasConnected else |device.keys| == SLOTS
    }

    constructor (device: Device?)
      requires device != null ==> |device.keys| == SLOTS
      ensures Valid() && this.device == device && rendered == map[]
      ensures wasConnected == (device != null && device.connected)
    {
      this.device := device;
      rendered := map[];
      wasConnected := device != null && device.connected;
    }

    /** Opens the device if there is one and it is not connected yet, forgets what was sent before, and sends black to
        every key. */
    method Start(black: Image, opens: bool, works: Writes) returns (ok: bool)
      requires Valid()
      modifies this, device
      ensures Valid() && ok == (device == null || old(Value()).connected || opens)
      ensures ok && device != null ==>
        Value() == Rendered(State(old(Value()).keys, true, map[], true), Blacks(black), works)
      ensures !ok || device == null ==> Value() == old(Value())
    {
      if device != null && !device.connected {
        ok := device.Connect(opens);
        if !ok {
          return false;
        }
      }
      rendered := map[];
      UploadBlackFrame(black, works);
      wasConnected := device != null && device.connected;
      if device != null {
        RenderedKeepsSeen(State(old(Value()).keys, true, map[], old(wasConnected)), true, Blacks(black), works);
      }
      return true;
    }

    method Upload(k: nat, image: Image, works: bool) returns (sent: bool)
      requires Valid() && device != null && k < SLOTS
      modifies this`rendered, device`keys
      ensures Valid() && Value() == Uploaded(old(Value()), k, image, works)
      ensures sent <==> device.connected && works && !(k in old(rendered) && old(rendered)[k] == image)
    {
      if k in rendered && rendered[k] == image {
        return false;
      }
      rendered := rendered[k := image];
      sent := device.SetKeyImage(k, image, works);
    }

    method UploadBlackFrame(black: Image, works: Writes)
      requires Valid()
      modifies this`rendered, device
      ensures Valid()
      ensures Value() == if device == null then old(Value()) else Rendered(old(Value()), Blacks(black), works)
    {
      if device == null {
        return;
      }
      ghost var s, images := Value(), Blacks(black);
      RenderedNothing(s, images, works);
      for k := 0 to SLOTS
        invariant Valid() && Value() == Rendered(s, images[..k], works[..k])
      {
        RenderedOneMore(s, images, works, k);
        var sent := Upload(k, black, works[k]);
      }
      assert images[..SLOTS] == images && works[..SLOTS] == works;
    }

    /** Sends the frame, key by key; `art` draws an appearance and a title. */
    method Render(frame: seq<SlotState>, art: (Appearance, string) -> Image, works: Writes)
      requires Valid() && |frame| == SLOTS && forall k :: 0 <= k < SLOTS ==> frame[k].slot == k
      modifies this`rendered, device
      ensures Valid()
      ensures Value() == if device == null then old(Value()) else Rendered(old(Value()), Drawn(frame, art), works)
    {
      if device == null {
        return;
      }
      ghost var s, images := Value(), Drawn(frame, art);
      RenderedNothing(s, images, works);
      for k := 0 to SLOTS
        invariant Valid() && Value() == Rendered(s, images[..k], works[..k])
      {
        RenderedOneMore(s, images, works, k);
        var image := art(frame[k].appearance, frame[k].title);
        var sent := Upload(frame[k].slot, image, works[k]);
      }
      assert images[..SLOTS] == images && works[..SLOTS] == works;
    }

    /** Notices that the device came back, and forgets what was sent before. */
    method MaybeReconnect() returns (back: bool)
      requires Valid()
      modifies this
      ensures Valid() && Value() == Checked(old(Value()))
      ensures back <==> old(Value()).connected && !old(wasConnected)
    {
      if device == null {
        return false;
      }
      if device.connected && !wasConnected {
        rendered := map[];
        wasConnected := true;
        return true;
      }
      wasConnected := device.connected;
      return false;
    }

    method Tick(registry: SlotRegistry, art: (Appearance, string) -> Image, works: Writes)
      requires Valid() && registry.Valid()
      modifies this, device
      ensures Valid()
      ensures var frame := Desired(registry.occupants, registry.generations, registry.instances);
        Value() == if device == null then old(Value()) else Ticked(old(Value()), Drawn(frame, art), works)
    {
      var back := MaybeReconnect();
      var frame := registry.Frame();
      assert frame == Desired(registry.occupants, registry.generations, registry.instances);
      Render(frame, art, works);
    }
  }

  function Drawn(frame: seq<SlotState>, art: (Appearance, string) -> Image): (images: seq<Image>)
    ensures |images| == |frame|
    ensures forall k :: 0 <= k < |frame| ==> images[k] == art(frame[k].appearance, frame[k].title)
  {
    seq(|frame|, k requires 0 <= k < |frame| => art(frame[k].appearance, frame[k].title))
  }

  function Desired(occupants: seq<Option<Id>>, generations: seq<nat>, instances: map<Id, Instance>)
    : (frame: seq<SlotState>)
    requires |occupants| == |generations| == SLOTS
    ensures |frame| == SLOTS
  {
    seq(SLOTS, k requires 0 <= k < SLOTS => SlotOf(k, occupants[k], generations[k], instances))
  }

  // ---------------------------------------------------------------- one rendering

  lemma {:induction false} RenderedNothing(s: State, images: seq<Image>, works: seq<bool>)
    requires |images| <= |s.keys| && |works| == |images|
    ensures Rendered(s, images[..0], works[..0]) == s
  {
  }

  lemma {:induction false} RenderedOneMore(s: State, images: seq<Image>, works: seq<bool>, k: nat)
    requires k < |images| <= |s.keys| && |works| == |images|
    ensures Rendered(s, images[..k + 1], works[..k + 1])
         == Uploaded(Rendered(s, images[..k], works[..k]), k, images[k], works[k])
  {
    assert images[..k + 1][..k] == images[..k] && works[..k + 1][..k] == works[..k];
  }

  /** From `s` to `t` the images have been rendered: the cache has the new image of each key, and a key was written
      when the cache had another image, the device was there and the write worked. */
  ghost predicate IsRendering(s: State, t: State, images: seq<Image>, works: seq<bool>)
    requires |works| == |images|
  {
    && |t.keys| == |s.keys| && t.connected == s.connected
    && (forall k: nat :: k in t.rendered <==> k in s.rendered || k < |images|)
    && (forall k: nat :: k < |images| ==> t.rendered[k] == images[k])
    && (forall k: nat :: k in s.rendered && k >= |images| ==> t.rendered[k] == s.rendered[k])
    && (forall k: nat :: k < |s.keys| ==>
          t.keys[k] == if k < |images| && s.connected && works[k] && !(k in s.rendered && s.rendered[k] == images[k])
                       then Some(images[k]) else s.keys[k])
  }

  lemma {:induction false} ShownAfterRender(s: State, images: seq<Image>, works: seq<bool>)
    requires |images| <= |s.keys| && |works| == |images|
    ensures IsRendering(s, Rendered(s, images, works), images, works)
    decreases |images|
  {
    if |images| > 0 {
      var n := |images| - 1;
      ShownAfterRender(s, images[..n], works[..n]);
      RendersOneMore(s, Rendered(s, images[..n], works[..n]), images, works);
    }
  }

  lemma {:induction false} RendersOneMore(s: State, t: State, images: seq<Image>, works: seq<bool>)
    requires 0 < |images| <= |s.keys| == |t.keys| && |works| == |images|
    requires IsRendering(s, t, images[..|images| - 1], works[..|images| - 1])
    ensures IsRendering(s, Uploaded(t, |images| - 1, images[|images| - 1], works[|images| - 1]), images, works)
  {
    var n := |images| - 1;
    var front, fits := images[..n], works[..n];
    assert |front| == n && forall k :: 0 <= k < n ==> front[k] == images[k] && fits[k] == works[k];
    assert n in t.rendered <==> n in s.rendered;
  }

  lemma {:induction false} RenderedKeepsSeen(s: State, seen: bool, images: seq<Image>, works: seq<bool>)
    requires |images| <= |s.keys| && |works| == |images|
    ensures Rendered(s, images, works).(wasConnected := seen) == Rendered(s.(wasConnected := seen), images, works)
    decreases |images|
  {
    if |images| > 0 {
      RenderedKeepsSeen(s, seen, images[..|images| - 1], works[..|images| - 1]);
    }
  }

  // ---------------------------------------------------------------- runs

  type Frame = images: seq<Image> | |images| == SLOTS witness seq(SLOTS, _ => [])

  type Keys = keys: seq<Option<Image>> | |keys| == SLOTS witness seq(SLOTS, _ => None)

  /** A tick of the main loop is a `Check` for a reconnect and then the uploads of a frame; REST threads upload frames
      of their own, and the device comes and goes, between any two of these.  A write that does not work is refused
      though the device is there. */
  datatype Event =
    | Unplug
    | Plug
    | Check
    | Upload(k: nat, image: Image, works: bool)

  function Next(s: State, e: Event): (t: State)
    requires |s.keys| == SLOTS
    ensures |t.keys| == SLOTS
  {
    match e
    case Unplug => Unplugged(s)
    case Plug => PluggedIn(s)
    case Check => Checked(s)
    case Upload(k, image, works) => if k < SLOTS then Uploaded(s, k, image, works) else s
  }

  /** A run begins when the broker has opened a device that shows `keys` and has forgotten what it sent before; its
      first events are the uploads of the black frame. */
  function After(keys: Keys, events: seq<Event>): (s: State)
    ensures |s.keys| == SLOTS
  {
    if |events| == 0 then State(keys, true, map[], true)
    else Next(After(keys, events[..|events| - 1]), events[|events| - 1])
  }

  lemma {:induction false} OneMore(keys: Keys, events: seq<Event>, e: Event)
    ensures After(keys, events + [e]) == Next(After(keys, events), e)
  {
    assert (events + [e])[..|events|] == events;
  }

  function Uploads(images: seq<Image>, works: seq<bool>): (events: seq<Event>)
    requires |works| == |images|
    ensures |events| == |images| && forall k :: 0 <= k < |images| ==> events[k] == Upload(k, images[k], works[k])
  {
    seq(|images|, k requires 0 <= k < |images| => Upload(k, images[k], works[k]))
  }

  /** A frame sent with nothing in between is its uploads. */
  lemma {:induction false} AfterUploads(keys: Keys, events: seq<Event>, images: seq<Image>, works: seq<bool>)
    requires |images| <= SLOTS && |works| == |images|
    ensures After(keys, events + Uploads(images, works)) == Rendered(After(keys, events), images, works)
    decreases |images|
  {
    hide After, Uploaded;
    if |images| == 0 {
      assert events + Uploads(images, works) == events;
    } else {
      var n := |images| - 1;
      var last := Upload(n, images[n], works[n]);
      AfterUploads(keys, events, images[..n], works[..n]);
      OneMore(keys, events + Uploads(images[..n], works[..n]), last);
      assert events + Uploads(images, works) == events + Uploads(images[..n], works[..n]) + [last];
    }
  }

  /** So a tick with nothing in between is its check and its uploads. */
  lemma {:induction false} UndisturbedTick(keys: Keys, events: seq<Event>, images: Frame, works: Writes)
    ensures After(keys, events + [Check] + Uploads(images, works)) == Ticked(After(keys, events), images, works)
  {
    AfterUploads(keys, events + [Check], images, works);
    OneMore(keys, events, Check);
  }

  /** The key does not have the image last sent to it, and nobody has noticed: a reconnect that is noticed, or a write
      of another image that works while the device is there, puts that right. */
  predicate Lost(keys: Keys, events: seq<Event>, k: nat)
    requires k < SLOTS
  {
    if |events| == 0 then false
    else
      var before, e := events[..|events| - 1], events[|events| - 1];
      var s := After(keys, before);
      match e
      case Unplug => true
      case Plug => Lost(keys, before, k)
      case Check => Lost(keys, before, k) && !(s.connected && !s.wasConnected)
      case Upload(j, image, works) =>
        if j != k || (k in s.rendered && s.rendered[k] == image) then Lost(keys, before, k)
        else !(s.connected && works) && s.keys[k] != Some(image)
  }

  /** A key is lost, when the cache has an image for it, if and only if it does not show that image; with the device
      away it shows none. */
  ghost predicate Honest(s: State, k: nat, lost: bool)
    requires k < |s.keys|
  {
    && (!s.connected ==> s.keys[k].None?)
    && (k in s.rendered ==> (lost <==> s.keys[k] != Some(s.rendered[k])))
  }

  lemma {:induction false} AlwaysHonest(keys: Keys, events: seq<Event>, k: nat)
    requires k < SLOTS
    ensures Honest(After(keys, events), k, Lost(keys, events, k))
    decreases |events|
  {
    if |events| > 0 {
      AlwaysHonest(keys, events[..|events| - 1], k);
    }
  }

  /** What was last sent to the key since the last check for a reconnect. */
  function LastSent(events: seq<Event>, k: nat): Option<Image> {
    if |events| == 0 || events[|events| - 1].Check? then None
    else if events[|events| - 1].Upload? && events[|events| - 1].k == k then Some(events[|events| - 1].image)
    else LastSent(events[..|events| - 1], k)
  }

  predicate Shows(keys: Keys, events: seq<Event>, k: nat)
    requires k < SLOTS
  {
    After(keys, events).keys[k] == LastSent(events, k)
  }

  lemma {:induction false} SentIsRecorded(keys: Keys, events: seq<Event>, k: nat)
    requires k < SLOTS && LastSent(events, k).Some?
    ensures k in After(keys, events).rendered && After(keys, events).rendered[k] == LastSent(events, k).value
    decreases |events|
  {
    var before, e := events[..|events| - 1], events[|events| - 1];
    if !(e.Upload? && e.k == k) {
      SentIsRecorded(keys, before, k);
    }
  }

  /** Once a key has been sent its image after the check, it shows that image exactly when it is not lost; whatever
      came between the check and the uploads. */
  lemma {:induction false} ShownUnlessLost(keys: Keys, events: seq<Event>, k: nat)
    requires k < SLOTS && LastSent(events, k).Some?
    ensures Shows(keys, events, k) <==> !Lost(keys, events, k)
  {
    AlwaysHonest(keys, events, k);
    SentIsRecorded(keys, events, k);
  }

  // ---------------------------------------------------------------- which schedules show every frame

  /** The device is there. */
  predicate Online(events: seq<Event>) {
    |events| == 0 || match events[|events| - 1]
      case Unplug => false
      case Plug => true
      case _ => Online(events[..|events| - 1])
  }

  /** The last check saw the device. */
  predicate Seen(events: seq<Event>) {
    |events| == 0 || match events[|events| - 1]
      case Check => Online(events[..|events| - 1])
      case _ => Seen(events[..|events| - 1])
  }

  /** The last event is a check that notices a reconnect. */
  predicate Notices(events: seq<Event>) {
    |events| > 0 && events[|events| - 1].Check? && Online(events[..|events| - 1]) && !Seen(events[..|events| - 1])
  }

  /** The cache has an image for the key. */
  predicate Cached(events: seq<Event>, k: nat) {
    if |events| == 0 || Notices(events) then false
    else Cached(events[..|events| - 1], k) || (events[|events| - 1].Upload? && events[|events| - 1].k == k)
  }

  /** The cache has an image for the key that the key may not show: it went dark since, or the write was refused, and
      if the images sent since are the same, nothing has put that right. */
  predicate Doubtful(events: seq<Event>, k: nat) {
    if |events| == 0 then false
    else
      var before, e := events[..|events| - 1], events[|events| - 1];
      match e
      case Unplug => Cached(before, k)
      case Plug => Doubtful(before, k)
      case Check => Doubtful(before, k) && !Notices(events)
      case Upload(j, _, works) => Doubtful(before, k) || (j == k && !(Online(before) && works))
  }

  lemma {:induction false} ScheduleDecides(keys: Keys, events: seq<Event>, k: nat)
    requires k < SLOTS
    ensures var s := After(keys, events);
      s.connected == Online(events) && s.wasConnected == Seen(events) && (k in s.rendered <==> Cached(events, k))
    decreases |events|
  {
    if |events| > 0 {
      ScheduleDecides(keys, events[..|events| - 1], k);
    }
  }

  lemma {:induction false} LostIsDoubtful(keys: Keys, events: seq<Event>, k: nat)
    requires k < SLOTS
    ensures Lost(keys, events, k) && Cached(events, k) ==> Doubtful(events, k)
    decreases |events|
  {
    if |events| > 0 {
      LostIsDoubtful(keys, events[..|events| - 1], k);
      ScheduleDecides(keys, events[..|events| - 1], k);
    }
  }

  /** The same schedule with other images: `art(i)` for the upload at place `i`. */
  function Repainted(events: seq<Event>, art: nat -> Image): (other: seq<Event>)
    ensures |other| == |events|
    ensures forall i :: 0 <= i < |events| ==>
      other[i] == if events[i].Upload? then events[i].(image := art(i)) else events[i]
  {
    seq(|events|, i requires 0 <= i < |events| =>
      if events[i].Upload? then events[i].(image := art(i)) else events[i])
  }

  lemma {:induction false} SameSchedule(events: seq<Event>, art: nat -> Image, k: nat)
    ensures var other := Repainted(events, art);
      && (Online(other) <==> Online(events)) && (Seen(other) <==> Seen(events))
      && (Cached(other, k) <==> Cached(events, k)) && (Doubtful(other, k) <==> Doubtful(events, k))
      && (LastSent(other, k).Some? <==> LastSent(events, k).Some?)
    decreases |events|
  {
    if |events| > 0 {
      var n := |events| - 1;
      SameSchedule(events[..n], art, k);
      assert Repainted(events, art)[..n] == Repainted(events[..n], art);
    }
  }

  /** Always-upload, refined, exactly: with the key sent its image since the check, a schedule of plugging, checks and
      uploads shows the key's image whatever the images are, if and only if the key is not doubtful in it. */
  lemma {:induction false} ShowsEveryFrameExactlyWhenSure(keys: Keys, events: seq<Event>, k: nat)
    requires k < SLOTS && LastSent(events, k).Some?
    ensures (forall art: nat -> Image :: Shows(keys, Repainted(events, art), k)) <==> !Doubtful(events, k)
  {
    forall art: nat -> Image ensures !Doubtful(events, k) ==> Shows(keys, Repainted(events, art), k) {
      var other := Repainted(events, art);
      SameSchedule(events, art, k);
      ScheduleDecides(keys, other, k);
      ShownUnlessLost(keys, other, k);
      SentIsRecorded(keys, other, k);
      LostIsDoubtful(keys, other, k);
    }
    if Doubtful(events, k) {
      var art := WrongArt(keys, events, k);
      SameSchedule(events, art, k);
      SentIsRecorded(keys, Repainted(events, art), k);
    }
  }

  /** The cache has an image for the key that the key does not show. */
  predicate Wrong(s: State, k: nat)
    requires k < |s.keys|
  {
    k in s.rendered && s.keys[k] != Some(s.rendered[k])
  }

  /** The images that make a doubtful key wrong: a new one where the write is refused or the device away, and from
      then on that same one. */
  lemma {:induction false} WrongArt(keys: Keys, events: seq<Event>, k: nat) returns (art: nat -> Image)
    requires k < SLOTS && Doubtful(events, k)
    ensures Wrong(After(keys, Repainted(events, art)), k)
    decreases |events|
  {
    var n := |events| - 1;
    var before, e := events[..n], events[n];
    art := i => [];
    if Doubtful(before, k) {
      art := WrongArt(keys, before, k);
    }
    var s := After(keys, Repainted(before, art));
    ScheduleDecides(keys, Repainted(before, art), k);
    SameSchedule(before, art, k);
    if e.Upload? && e.k == k {
      var image := if Doubtful(before, k) then s.rendered[k] else Another(s, k);
      RepaintLast(keys, events, art, image);
      art := WithLast(art, n, image);
    } else {
      RepaintLast(keys, events, art, art(n));
      art := WithLast(art, n, art(n));
    }
  }

  /** An image that is neither in the cache for the key nor on it. */
  function Another(s: State, k: nat): (image: Image)
    requires k < |s.keys|
    ensures s.keys[k] != Some(image) && (k in s.rendered ==> s.rendered[k] != image)
  {
    var shown := if s.keys[k].Some? then |s.keys[k].value| else 0;
    var sent := if k in s.rendered then |s.rendered[k]| else 0;
    seq(shown + sent + 1, _ => 0)
  }

  function WithLast(art: nat -> Image, n: nat, image: Image): nat -> Image {
    (i: nat) => if i == n then image else art(i)
  }

  lemma {:induction false} RepaintLast(keys: Keys, events: seq<Event>, art: nat -> Image, image: Image)
    requires |events| > 0
    ensures var n := |events| - 1;
      var e := if events[n].Upload? then events[n].(image := image) else events[n];
      After(keys, Repainted(events, WithLast(art, n, image))) == Next(After(keys, Repainted(events[..n], art)), e)
  {
    var n := |events| - 1;
    assert Repainted(events, WithLast(art, n, image))[..n] == Repainted(events[..n], art);
    hide Next;
  }

  // ---------------------------------------------------------------- when every disconnect is seen in time

  /** The device was unplugged since the last check. */
  predicate UnpluggedSince(events: seq<Event>) {
    |events| > 0 && match events[|events| - 1]
      case Unplug => true
      case Check => false
      case _ => UnpluggedSince(events[..|events| - 1])
  }

  /** No check finds the device there, as the one before did, though it was away between. */
  ghost predicate NothingMissed(events: seq<Event>) {
    forall n :: 0 <= n < |events| && events[n].Check? ==>
      !(Online(events[..n]) && Seen(events[..n]) && UnpluggedSince(events[..n]))
  }

  lemma {:induction false} NothingMissedBefore(events: seq<Event>)
    requires |events| > 0 && NothingMissed(events)
    ensures NothingMissed(events[..|events| - 1])
  {
    var before := events[..|events| - 1];
    forall n | 0 <= n < |before| && before[n].Check?
      ensures !(Online(before[..n]) && Seen(before[..n]) && UnpluggedSince(before[..n]))
    {
      assert before[..n] == events[..n] && before[n] == events[n];
    }
  }

  /** No write to the key is refused while the device is there. */
  ghost predicate NothingRefused(events: seq<Event>, k: nat) {
    forall n :: 0 <= n < |events| && events[n].Upload? && events[n].k == k && Online(events[..n]) ==> events[n].works
  }

  lemma {:induction false} NothingRefusedBefore(events: seq<Event>, k: nat)
    requires |events| > 0 && NothingRefused(events, k)
    ensures NothingRefused(events[..|events| - 1], k)
  {
    var before := events[..|events| - 1];
    forall n | 0 <= n < |before| && before[n].Upload? && before[n].k == k && Online(before[..n])
      ensures before[n].works
    {
      assert before[..n] == events[..n] && before[n] == events[n];
    }
  }

  lemma {:induction false} NothingDoubtful(events: seq<Event>, k: nat)
    requires NothingMissed(events) && NothingRefused(events, k) && Seen(events) && !UnpluggedSince(events)
    ensures !Doubtful(events, k) && Online(events)
    decreases |events|
  {
    if |events| > 0 {
      var before, e := events[..|events| - 1], events[|events| - 1];
      NothingMissedBefore(events);
      NothingRefusedBefore(events, k);
      if e.Check? {
        assert events[..|events| - 1] == before;
        assert !(Online(before) && Seen(before) && UnpluggedSince(before));
        if Seen(before) {
          NothingDoubtful(before, k);
        }
      } else {
        NothingDoubtful(before, k);
      }
    }
  }

  predicate NoCheckNoPlug(events: seq<Event>) {
    forall i :: 0 <= i < |events| ==> !events[i].Check? && !events[i].Plug?
  }

  lemma {:induction false} StaysSeen(before: seq<Event>, during: seq<Event>)
    requires NoCheckNoPlug(during) && Online(before + [Check] + during) && NothingMissed(before + [Check])
    ensures var all := before + [Check] + during;
      NothingMissed(all) && Seen(all) && !UnpluggedSince(all)
    decreases |during|
  {
    var all := before + [Check] + during;
    if |during| == 0 {
      assert all == before + [Check] && all[..|all| - 1] == before;
    } else {
      var n := |during| - 1;
      assert all[..|all| - 1] == before + [Check] + during[..n];
      StaysSeen(before, during[..n]);
      forall m | 0 <= m < |all| && all[m].Check?
        ensures !(Online(all[..m]) && Seen(all[..m]) && UnpluggedSince(all[..m]))
      {
        var shorter := before + [Check] + during[..n];
        assert m < |shorter| && shorter[m] == all[m] && shorter[..m] == all[..m];
      }
    }
  }

  /** Always-upload, refined: if no complete disconnect and reconnect falls between two checks, no plug falls between
      the check of a tick and the end of its uploads, and no write to the key is refused while the device is there,
      then a tick that ends connected leaves the key showing the image last sent to it, whatever else was rendered
      meanwhile or while the device was away. */
  lemma {:induction false} KeysShowTheFrame(keys: Keys, before: seq<Event>, during: seq<Event>, k: nat)
    requires NothingMissed(before + [Check]) && NoCheckNoPlug(during) && Online(before + [Check] + during)
    requires k < SLOTS && LastSent(before + [Check] + during, k).Some?
    requires NothingRefused(before + [Check] + during, k)
    ensures Shows(keys, before + [Check] + during, k)
  {
    var all := before + [Check] + during;
    StaysSeen(before, during);
    NothingDoubtful(all, k);
    ScheduleDecides(keys, all, k);
    ShownUnlessLost(keys, all, k);
    SentIsRecorded(keys, all, k);
    LostIsDoubtful(keys, all, k);
  }

  // ---------------------------------------------------------------- and without each of the conditions

  /** A key the cache is wrong about stays as it is while the frame is sent again. */
  lemma {:induction false} WrongStays(s: State, images: Frame, works: Writes, k: nat)
    requires |s.keys| == SLOTS && k < SLOTS && Wrong(s, k) && images[k] == s.rendered[k]
    ensures var t := Rendered(s, images, works);
      t.keys[k] == s.keys[k] && Wrong(t, k) && t.rendered[k] == images[k]
  {
    ShownAfterRender(s, images, works);
  }

  /** Without the first the keys stay dark: unplugged and back between two ticks, with the frame as it was. */
  lemma {:induction false} MissedReplugLeavesKeysDark(keys: Keys, events: seq<Event>, images: Frame, works: Writes,
                                                      k: nat)
    requires Online(events) && Seen(events) && k < SLOTS && LastSent(events, k) == Some(images[k])
    ensures After(keys, events + [Unplug] + [Plug] + [Check] + Uploads(images, works)).keys[k].None?
  {
    ScheduleDecides(keys, events, k);
    SentIsRecorded(keys, events, k);
    ThreeMore(keys, events, Unplug, Plug, Check);
    AfterUploads(keys, events + [Unplug] + [Plug] + [Check], images, works);
    WrongStays(After(keys, events + [Unplug] + [Plug] + [Check]), images, works, k);
  }

  /** Without the second they stay dark until the next tick: the unplug was seen, but the device is back only after
      the check has looked. */
  lemma {:induction false} PlugAfterCheckLeavesKeysDark(keys: Keys, events: seq<Event>, images: Frame, works: Writes,
                                                        k: nat)
    requires Online(events) && Seen(events) && k < SLOTS && LastSent(events, k) == Some(images[k])
    ensures After(keys, events + [Unplug] + [Check] + [Plug] + Uploads(images, works)).keys[k].None?
  {
    ScheduleDecides(keys, events, k);
    SentIsRecorded(keys, events, k);
    ThreeMore(keys, events, Unplug, Check, Plug);
    AfterUploads(keys, events + [Unplug] + [Check] + [Plug], images, works);
    WrongStays(After(keys, events + [Unplug] + [Check] + [Plug]), images, works, k);
  }

  lemma {:induction false} ThreeMore(keys: Keys, events: seq<Event>, a: Event, b: Event, c: Event)
    ensures After(keys, events + [a] + [b] + [c]) == Next(Next(Next(After(keys, events), a), b), c)
  {
    hide Next, After;
    OneMore(keys, events, a);
    OneMore(keys, events + [a], b);
    OneMore(keys, events + [a] + [b], c);
  }

  /** Ticks that send the same frame with the device there. */
  function Ticks(n: nat, images: Frame, works: Writes): seq<Event> {
    if n == 0 then [] else Ticks(n - 1, images, works) + [Check] + Uploads(images, works)
  }

  /** Without the third the key keeps its old image for as long as the frame stays the same: a refused write is in the
      cache like any other, and however many ticks follow and would work, none tries it again. */
  lemma {:induction false} RefusedWriteIsNotRetried(keys: Keys, events: seq<Event>, images: Frame, works: Writes,
                                                    k: nat, n: nat)
    requires Online(events) && Seen(events) && k < SLOTS && !works[k]
    requires var s := After(keys, events);
      s.keys[k] != Some(images[k]) && !(k in s.rendered && s.rendered[k] == images[k])
    ensures var all := events + Uploads(images, works) + Ticks(n, images, seq(SLOTS, _ => true));
      After(keys, all).keys[k] == After(keys, events).keys[k] != Some(images[k])
  {
    var first := events + Uploads(images, works);
    AfterUploads(keys, events, images, works);
    ScheduleDecides(keys, events, k);
    ShownAfterRender(After(keys, events), images, works);
    WrongThroughTicks(keys, first, images, k, n);
  }

  lemma {:induction false} WrongThroughTicks(keys: Keys, events: seq<Event>, images: Frame, k: nat, n: nat)
    requires k < SLOTS
    requires var s := After(keys, events); s.connected && s.wasConnected && Wrong(s, k) && s.rendered[k] == images[k]
    ensures var s, t := After(keys, events), After(keys, events + Ticks(n, images, seq(SLOTS, _ => true)));
      t.connected && t.wasConnected && t.keys[k] == s.keys[k] && Wrong(t, k) && t.rendered[k] == images[k]
    decreases n
  {
    var works: Writes := seq(SLOTS, _ => true);
    if n == 0 {
      assert events + [] == events;
    } else {
      WrongThroughTicks(keys, events, images, k, n - 1);
      var before := events + Ticks(n - 1, images, works);
      assert events + Ticks(n, images, works) == before + [Check] + Uploads(images, works);
      UndisturbedTick(keys, before, images, works);
      WrongStays(After(keys, before), images, works, k);
    }
  }
}
