/** When a request surfaces, and what it says, told by the frames of its stream. */
module H2Ends {
  import opened Bytes
  import opened H2

  /** What the frames of a stream have told since it was opened: a header block is complete; the stream has ended; a header block
      is under way. */
  datatype Told = Told(headers: bool, ended: bool, open: bool)

  const Opened := Told(false, false, false)

  function Tell(before: Option<Told>, f: Frame): Option<Told> {
    var t := if before.Some? then before.value else Opened;
    if f.ty == T_RST_STREAM then None
    else if f.ty == T_HEADERS then
      Some(Told(t.headers || Flag(f.flags, F_END_HEADERS), Flag(f.flags, F_END_STREAM), !Flag(f.flags, F_END_HEADERS)))
    else if before.None? then None
    else if f.ty == T_CONTINUATION && Flag(f.flags, F_END_HEADERS) then Some(t.(headers := true, open := false))
    else if f.ty == T_DATA then Some(t.(ended := t.ended || Flag(f.flags, F_END_STREAM)))
    else before
  }

  function ToldOf(evs: seq<Event>, id: nat): Option<Told> {
    if evs == [] then None
    else
      var before := ToldOf(evs[..|evs| - 1], id);
      match evs[|evs| - 1]
      case Responds(i) => if i == id then None else before
      case Arrives(f) => if f.id == id then Tell(before, f) else before
  }

  /** The stream has its headers, nothing of a header block is under way, and it has ended. */
  predicate Ready(t: Option<Told>) { t.Some? && t.value.headers && t.value.ended && !t.value.open }

  predicate FrameOf(e: Event, id: nat, types: set<byte>, flag: byte)
    requires flag > 0
  {
    e.Arrives? && e.frame.id == id && e.frame.ty in types && Flag(e.frame.flags, flag)
  }

  /** Such a frame has come, and the stream has not been removed since. */
  ghost predicate Came(evs: seq<Event>, id: nat, types: set<byte>, flag: byte)
    requires flag > 0
  {
    exists m :: 0 <= m < |evs| && FrameOf(evs[m], id, types, flag) && !RemovedBetween(evs, m, |evs|, id)
  }

  lemma CameStays(init: seq<Event>, e: Event, id: nat, types: set<byte>, flag: byte)
    requires flag > 0 && Came(init, id, types, flag) && !Removes(e, id)
    ensures Came(init + [e], id, types, flag)
  {
    var m :| 0 <= m < |init| && FrameOf(init[m], id, types, flag) && !RemovedBetween(init, m, |init|, id);
    RemovedPrefix(init, [e], m, |init|, id);
    assert (init + [e])[m] == init[m];
  }

  lemma CameNow(init: seq<Event>, e: Event, id: nat, types: set<byte>, flag: byte)
    requires flag > 0 && FrameOf(e, id, types, flag) && T_RST_STREAM !in types
    ensures Came(init + [e], id, types, flag)
  {
    assert (init + [e])[|init|] == e;
  }

  /** A stream that is told to be ready has had the end of a header block and an END_STREAM since it was last removed. */
  lemma {:induction false} ReadyMeans(evs: seq<Event>, id: nat)
    ensures ToldOf(evs, id).Some? && ToldOf(evs, id).value.headers ==> Came(evs, id, {T_HEADERS, T_CONTINUATION}, F_END_HEADERS)
    ensures ToldOf(evs, id).Some? && ToldOf(evs, id).value.ended ==> Came(evs, id, {T_HEADERS, T_DATA}, F_END_STREAM)
    decreases |evs|
  {
    if evs != [] && ToldOf(evs, id).Some? {
      var init, e := evs[..|evs| - 1], evs[|evs| - 1];
      assert evs == init + [e];
      ReadyMeans(init, id);
      var t := ToldOf(evs, id).value;
      if t.headers {
        if FrameOf(e, id, {T_HEADERS, T_CONTINUATION}, F_END_HEADERS) {
          CameNow(init, e, id, {T_HEADERS, T_CONTINUATION}, F_END_HEADERS);
        } else {
          CameStays(init, e, id, {T_HEADERS, T_CONTINUATION}, F_END_HEADERS);
        }
      }
      if t.ended {
        if FrameOf(e, id, {T_HEADERS, T_DATA}, F_END_STREAM) {
          CameNow(init, e, id, {T_HEADERS, T_DATA}, F_END_STREAM);
        } else {
          CameStays(init, e, id, {T_HEADERS, T_DATA}, F_END_STREAM);
        }
      }
    }
  }

  // --- what a request says ---------------------------------------------------

  /** `v` stands under this name in the last of the fields that have it, and is empty if none has. */
  predicate LastUnder(fields: seq<Field>, name: bytes, v: bytes) {
    || (v == [] && forall i :: 0 <= i < |fields| ==> fields[i].0 != name)
    || (exists i :: 0 <= i < |fields| && fields[i] == (name, v) && forall j :: i < j < |fields| ==> fields[j].0 != name)
  }

  /** The fields that the frames of stream `id` have carried since it was opened, in the order in which their blocks ended. */
  function FieldsOf(evs: seq<Event>, id: nat, hpack: Hpack): seq<Field> {
    if evs == [] then []
    else
      var init := evs[..|evs| - 1];
      var before := FieldsOf(init, id, hpack);
      match evs[|evs| - 1]
      case Responds(i) => if i == id then [] else before
      case Arrives(f) =>
        if f.id != id then before
        else if f.ty == T_RST_STREAM then []
        else if (f.ty == T_HEADERS || f.ty == T_CONTINUATION) && Flag(f.flags, F_END_HEADERS) then
          before + Decoded(Run(init, hpack).blocks, Run(evs, hpack).blocks, hpack)
        else before
  }

  /** The fields of the block that was decoded from `was` to `now`. */
  function Decoded(was: seq<bytes>, now: seq<bytes>, hpack: Hpack): seq<Field> {
    if now == [] then [] else match hpack(was, now[|now| - 1]) case None => [] case Some(fields) => fields
  }

  predicate Says(fields: seq<Field>, verb: bytes, path: bytes, authority: bytes, contentType: bytes) {
    && LastUnder(fields, A(":method"), verb) && LastUnder(fields, A(":path"), path)
    && LastUnder(fields, A(":authority"), authority) && LastUnder(fields, A("content-type"), contentType)
  }

  predicate StreamSays(st: Strm, fields: seq<Field>) { Says(fields, st.verb, st.path, st.authority, st.contentType) }

  lemma LastMore(fields: seq<Field>, f: Field, name: bytes, v: bytes)
    requires LastUnder(fields, name, v)
    ensures LastUnder(fields + [f], name, if f.0 == name then f.1 else v)
  {
    var all := fields + [f];
    if f.0 == name {
      assert all[|fields|] == (name, f.1);
    } else if exists i :: 0 <= i < |fields| && fields[i] == (name, v) && forall j :: i < j < |fields| ==> fields[j].0 != name {
      var i :| 0 <= i < |fields| && fields[i] == (name, v) && forall j :: i < j < |fields| ==> fields[j].0 != name;
      assert all[i] == (name, v);
    }
  }

  lemma NamesDiffer()
    ensures A(":method") != A(":path") && A(":method") != A(":authority") && A(":method") != A("content-type")
    ensures A(":path") != A(":authority") && A(":path") != A("content-type") && A(":authority") != A("content-type")
  {
    assert |A(":method")| == 7 && |A(":path")| == 5 && |A(":authority")| == 10 && |A("content-type")| == 12;
  }

  lemma {:induction false} RecordSays(st: Strm, before: seq<Field>, fields: seq<Field>)
    requires StreamSays(st, before)
    ensures StreamSays(Record(st, fields), before + fields)
    decreases |fields|
  {
    if fields == [] {
      assert before + fields == before;
    } else {
      var f := fields[0];
      var one := Record(st, [f]);
      RecordOne(st, before, f);
      RecordFirst(st, fields);
      RecordSays(one, before + [f], fields[1..]);
      assert before + [f] + fields[1..] == before + fields;
    }
  }

  lemma RecordFirst(st: Strm, fields: seq<Field>)
    requires fields != []
    ensures Record(st, fields) == Record(Record(st, [fields[0]]), fields[1..])
  {
    var one := [fields[0]];
    assert one[1..] == [];
  }

  lemma RecordOne(st: Strm, before: seq<Field>, f: Field)
    requires StreamSays(st, before)
    ensures StreamSays(Record(st, [f]), before + [f])
  {
    NamesDiffer();
    assert [f][1..] == [];
    LastMore(before, f, A(":method"), st.verb);
    LastMore(before, f, A(":path"), st.path);
    LastMore(before, f, A(":authority"), st.authority);
    LastMore(before, f, A("content-type"), st.contentType);
  }

  // --- one event -------------------------------------------------------------

  predicate AsTold(st: Strm, t: Told, open: bool) {
    && st.headersDone == t.headers && st.endStream == t.ended && open == t.open
    && (t.headers && t.ended && !t.open ==> st.dispatched)
  }

  predicate Concerns(e: Event, id: nat) {
    match e
    case Arrives(f) => f.id == id
    case Responds(i) => i == id
  }

  lemma OthersUntold(init: seq<Event>, e: Event, id: nat, hpack: Hpack)
    requires !Concerns(e, id)
    ensures ToldOf(init + [e], id) == ToldOf(init, id) && FieldsOf(init + [e], id, hpack) == FieldsOf(init, id, hpack)
  {
    assert (init + [e])[..|init|] == init;
  }

  /** Stream `id` stands in `c` as its frames tell, and has surfaced if it is ready. */
  ghost predicate StreamAsTold(c: Conn, id: nat, told: Option<Told>, fields: seq<Field>) {
    && (id in c.streams <==> told.Some?)
    && (id in c.streams ==> AsTold(c.streams[id], told.value, c.continuation == Some(id)) && StreamSays(c.streams[id], fields))
    && (id !in c.streams ==> fields == [])
  }

  ghost predicate StandsAsTold(c: Conn, evs: seq<Event>, hpack: Hpack) {
    forall id :: StreamAsTold(c, id, ToldOf(evs, id), FieldsOf(evs, id, hpack))
  }

  /** The streams but for `id` are as they were. */
  ghost predicate OnlyStream(c: Conn, d: Conn, id: nat) {
    && (forall i :: i != id ==> (i in d.streams <==> i in c.streams))
    && (forall i :: i != id && i in c.streams ==> d.streams[i] == c.streams[i])
    && (forall i :: i != id ==> (d.continuation == Some(i) <==> c.continuation == Some(i)))
  }

  lemma HandlesOne(c: Conn, f: Frame, hpack: Hpack)
    requires !Handle(c, f, hpack).failed
    ensures OnlyStream(c, Handle(c, f, hpack), f.id)
  {
  }

  /** A header block of the stream has ended. */
  lemma FinishTold(c: Conn, id: nat, told: Told, fields: seq<Field>, hpack: Hpack)
    requires id in c.streams && !FinishHeaders(c, id, hpack).failed && c.continuation != Some(id)
    requires c.streams[id].endStream == told.ended && StreamSays(c.streams[id], fields)
    ensures var d := FinishHeaders(c, id, hpack);
            StreamAsTold(d, id, Some(Told(true, told.ended, false)), fields + Decoded(c.blocks, d.blocks, hpack))
  {
    var block := c.streams[id].headerBlock;
    var said := hpack(c.blocks, block);
    if said.Some? {
      var st := c.streams[id].(headerBlock := [], headersDone := true);
      RecordKeeps(st, said.value);
      RecordSays(st, fields, said.value);
      var now := c.blocks + [block];
      assert now[|now| - 1] == block;
    }
  }

  lemma NothingSaid()
    ensures StreamSays(NewStream, [])
  {
  }

  lemma HeadersTold(c: Conn, f: Frame, told: Option<Told>, fields: seq<Field>, hpack: Hpack)
    requires StreamAsTold(c, f.id, told, fields) && c.continuation.None? && f.ty == T_HEADERS
    requires !Handle(c, f, hpack).failed
    ensures var d := Handle(c, f, hpack);
            StreamAsTold(d, f.id, Tell(told, f),
                         if Flag(f.flags, F_END_HEADERS) then fields + Decoded(c.blocks, d.blocks, hpack) else fields)
  {
    NothingSaid();
    var st := if f.id in c.streams then c.streams[f.id] else NewStream;
    var fragment := HeaderFragment(f.flags, f.payload).value;
    var st' := st.(headerBlock := st.headerBlock + fragment, endStream := Flag(f.flags, F_END_STREAM));
    var mid := c.(streams := c.streams[f.id := st']);
    if Flag(f.flags, F_END_HEADERS) {
      FinishTold(mid, f.id, Tell(told, f).value, fields, hpack);
    }
  }

  lemma ContinuationTold(c: Conn, f: Frame, told: Option<Told>, fields: seq<Field>, hpack: Hpack)
    requires StreamAsTold(c, f.id, told, fields) && f.ty == T_CONTINUATION && !c.failed && !Handle(c, f, hpack).failed
    ensures var d := Handle(c, f, hpack);
            StreamAsTold(d, f.id, Tell(told, f),
                         if Flag(f.flags, F_END_HEADERS) then fields + Decoded(c.blocks, d.blocks, hpack) else fields)
  {
    var st := c.streams[f.id];
    var mid := c.(streams := c.streams[f.id := st.(headerBlock := st.headerBlock + f.payload)], continuation := None);
    if Flag(f.flags, F_END_HEADERS) {
      FinishTold(mid, f.id, Tell(told, f).value, fields, hpack);
    }
  }

  /** A frame that is no part of a header block. */
  lemma OtherTold(c: Conn, f: Frame, told: Option<Told>, fields: seq<Field>, hpack: Hpack)
    requires StreamAsTold(c, f.id, told, fields) && c.continuation.None? && f.ty != T_HEADERS && f.ty != T_CONTINUATION
    requires !c.failed && !Handle(c, f, hpack).failed
    ensures StreamAsTold(Handle(c, f, hpack), f.id, Tell(told, f), if f.ty == T_RST_STREAM then [] else fields)
  {
  }

  // --- a whole run -----------------------------------------------------------

  lemma FrameTold(init: seq<Event>, f: Frame, hpack: Hpack)
    requires StandsAsTold(Run(init, hpack), init, hpack) && !Run(init, hpack).failed
    requires !Handle(Run(init, hpack), f, hpack).failed
    ensures var evs := init + [Arrives(f)];
            StreamAsTold(Handle(Run(init, hpack), f, hpack), f.id, ToldOf(evs, f.id), FieldsOf(evs, f.id, hpack))
  {
    var c, evs := Run(init, hpack), init + [Arrives(f)];
    var told, fields := ToldOf(init, f.id), FieldsOf(init, f.id, hpack);
    assert evs[..|evs| - 1] == init;
    assert StreamAsTold(c, f.id, told, fields);
    if f.ty == T_HEADERS {
      HeadersTold(c, f, told, fields, hpack);
    } else if f.ty == T_CONTINUATION {
      ContinuationTold(c, f, told, fields, hpack);
    } else {
      OtherTold(c, f, told, fields, hpack);
    }
  }

  lemma OthersStand(c: Conn, d: Conn, init: seq<Event>, e: Event, id: nat, hpack: Hpack)
    requires StandsAsTold(c, init, hpack) && OnlyStream(c, d, id) && forall i :: Concerns(e, i) ==> i == id
    requires StreamAsTold(d, id, ToldOf(init + [e], id), FieldsOf(init + [e], id, hpack))
    ensures StandsAsTold(d, init + [e], hpack)
  {
    forall i ensures StreamAsTold(d, i, ToldOf(init + [e], i), FieldsOf(init + [e], i, hpack)) {
      if i != id {
        OthersUntold(init, e, i, hpack);
        assert StreamAsTold(c, i, ToldOf(init, i), FieldsOf(init, i, hpack));
      }
    }
  }

  /** At every moment of a run that has not failed, each stream stands as its own frames tell. */
  lemma {:induction false} RunTold(evs: seq<Event>, hpack: Hpack)
    requires !Run(evs, hpack).failed
    ensures StandsAsTold(Run(evs, hpack), evs, hpack)
    decreases |evs|
  {
    if evs != [] {
      var init, e := evs[..|evs| - 1], evs[|evs| - 1];
      assert evs == init + [e];
      FailedStays(Run(init, hpack), e, hpack);
      RunTold(init, hpack);
      var c, d := Run(init, hpack), Run(evs, hpack);
      match e
      case Responds(id) => OthersStand(c, d, init, e, id, hpack);
      case Arrives(f) =>
        FrameTold(init, f, hpack);
        HandlesOne(c, f, hpack);
        OthersStand(c, d, init, e, f.id, hpack);
    }
  }

  /** A stream surfaces when its frames say that it is ready, and with what they say. */
  ghost predicate SurfacesReady(c: Conn, d: Conn) {
    d.ready == c.ready
    || (|d.ready| == |c.ready| + 1 && d.ready[..|c.ready|] == c.ready
        && var r := d.ready[|c.ready|];
           r.streamId in d.streams
           && var st := d.streams[r.streamId];
              st.headersDone && st.endStream && st.dispatched && d.continuation != Some(r.streamId)
              && r == Request(r.streamId, st.verb, st.path, st.authority, st.contentType, r.body))
  }

  lemma DispatchReady(c: Conn, id: nat)
    requires c.continuation != Some(id)
    ensures SurfacesReady(c, MaybeDispatch(c, id))
  {
  }

  lemma FinishReady(c: Conn, id: nat, hpack: Hpack)
    requires c.continuation != Some(id) && !FinishHeaders(c, id, hpack).failed
    ensures SurfacesReady(c, FinishHeaders(c, id, hpack))
  {
    if id in c.streams {
      var block := c.streams[id].headerBlock;
      var said := hpack(c.blocks, block);
      var st := c.streams[id].(headerBlock := [], headersDone := true);
      var mid := c.(streams := c.streams[id := Record(st, said.value)], blocks := c.blocks + [block]);
      DispatchReady(mid, id);
    }
  }

  lemma HandleReady(c: Conn, f: Frame, hpack: Hpack)
    requires !c.failed && !Handle(c, f, hpack).failed
    ensures SurfacesReady(c, Handle(c, f, hpack))
  {
    if f.ty == T_HEADERS {
      var st := if f.id in c.streams then c.streams[f.id] else NewStream;
      var fragment := HeaderFragment(f.flags, f.payload).value;
      var mid := c.(streams := c.streams[f.id := st.(headerBlock := st.headerBlock + fragment, endStream := Flag(f.flags, F_END_STREAM))]);
      if Flag(f.flags, F_END_HEADERS) {
        FinishReady(mid, f.id, hpack);
      }
    } else if f.ty == T_CONTINUATION {
      var st := c.streams[f.id];
      var mid := c.(streams := c.streams[f.id := st.(headerBlock := st.headerBlock + f.payload)], continuation := None);
      if Flag(f.flags, F_END_HEADERS) {
        FinishReady(mid, f.id, hpack);
      }
    } else if f.ty == T_DATA && f.id in c.streams {
      var st, p := c.streams[f.id], DataOf(f.flags, f.payload).value;
      DispatchReady(c.(streams := c.streams[f.id := st.(body := st.body + p, endStream := st.endStream || Flag(f.flags, F_END_STREAM))]), f.id);
    }
  }

  /** The request says what its stream's fields said. */
  predicate RequestSays(r: Request, fields: seq<Field>) { Says(fields, r.verb, r.path, r.authority, r.contentType) }

  /** After `m` events the frames of its stream had told that the request was ready, and it says what its fields said. */
  predicate PunctualAt(r: Request, evs: seq<Event>, m: nat, hpack: Hpack) {
    && m <= |evs| && Ready(ToldOf(evs[..m], r.streamId)) && RequestSays(r, FieldsOf(evs[..m], r.streamId, hpack))
  }

  /** Each request surfaced when it was ready. */
  ghost predicate Punctual(c: Conn, evs: seq<Event>, ms: seq<nat>, hpack: Hpack) {
    |ms| == |c.ready| && forall k :: 0 <= k < |ms| ==> PunctualAt(c.ready[k], evs, ms[k], hpack)
  }

  /** The stream has surfaced since it was opened. */
  ghost predicate HasSurfaced(c: Conn, evs: seq<Event>, ms: seq<nat>, id: nat)
    requires |ms| == |c.ready|
  {
    exists k :: 0 <= k < |ms| && c.ready[k].streamId == id && !RemovedBetween(evs, ms[k], |evs|, id)
  }

  ghost predicate Accounted(c: Conn, evs: seq<Event>, ms: seq<nat>)
    requires |ms| == |c.ready|
  {
    && (forall k :: 0 <= k < |ms| ==> ms[k] <= |evs|)
    && forall id :: id in c.streams && c.streams[id].dispatched ==> HasSurfaced(c, evs, ms, id)
  }

  lemma SurfacedPunctual(init: seq<Event>, e: Event, hpack: Hpack)
    requires !Run(init + [e], hpack).failed && Run(init + [e], hpack) == Apply(Run(init, hpack), e, hpack)
    requires SurfacesReady(Run(init, hpack), Run(init + [e], hpack)) && Run(init + [e], hpack).ready != Run(init, hpack).ready
    ensures var c, evs := Run(init + [e], hpack), init + [e];
            var r := c.ready[|c.ready| - 1];
            PunctualAt(r, evs, |evs|, hpack)
  {
    var d, evs := Run(init + [e], hpack), init + [e];
    assert evs[..|evs|] == evs;
    RunTold(evs, hpack);
    var id := d.ready[|d.ready| - 1].streamId;
    assert StreamAsTold(d, id, ToldOf(evs, id), FieldsOf(evs, id, hpack));
  }

  lemma StillPunctual(r: Request, evs: seq<Event>, e: Event, m: nat, hpack: Hpack)
    requires PunctualAt(r, evs, m, hpack)
    ensures PunctualAt(r, evs + [e], m, hpack)
  {
    assert (evs + [e])[..m] == evs[..m];
  }

  lemma PunctualKept(c: Conn, d: Conn, evs: seq<Event>, e: Event, ms: seq<nat>, hpack: Hpack)
    requires Punctual(c, evs, ms, hpack) && |c.ready| <= |d.ready| && d.ready[..|c.ready|] == c.ready
    ensures forall k :: 0 <= k < |ms| ==> PunctualAt(d.ready[k], evs + [e], ms[k], hpack)
  {
    forall k | 0 <= k < |ms| ensures PunctualAt(d.ready[k], evs + [e], ms[k], hpack) {
      assert d.ready[..|c.ready|][k] == d.ready[k];
      StillPunctual(c.ready[k], evs, e, ms[k], hpack);
    }
  }

  lemma PunctualMore(c: Conn, d: Conn, evs: seq<Event>, e: Event, ms: seq<nat>, hpack: Hpack)
    requires Punctual(c, evs, ms, hpack) && |d.ready| == |c.ready| + 1 && d.ready[..|c.ready|] == c.ready
    requires PunctualAt(d.ready[|c.ready|], evs + [e], |evs| + 1, hpack)
    ensures Punctual(d, evs + [e], ms + [|evs| + 1], hpack)
  {
    PunctualKept(c, d, evs, e, ms, hpack);
  }

  /** What one event does to the marks of the streams that have surfaced. */
  lemma MarksChange(c: Conn, e: Event, id: nat, hpack: Hpack)
    requires !c.failed && !Apply(c, e, hpack).failed
    ensures var d := Apply(c, e, hpack);
            id in d.streams && d.streams[id].dispatched ==>
              || (id in c.streams && c.streams[id].dispatched && !Removes(e, id))
              || (|d.ready| == |c.ready| + 1 && d.ready[|c.ready|].streamId == id)
  {
    if e.Arrives? && (e.frame.ty == T_HEADERS || e.frame.ty == T_CONTINUATION || (e.frame.ty == T_DATA && e.frame.id in c.streams)) {
      var mid := HandleSurfaces(c, e.frame, hpack);
    }
  }

  lemma SurfacedStays(c: Conn, d: Conn, evs: seq<Event>, e: Event, ms: seq<nat>, more: seq<nat>, id: nat)
    requires |ms| == |c.ready| && |ms + more| == |d.ready| && d.ready[..|c.ready|] == c.ready
    requires forall k :: 0 <= k < |ms| ==> ms[k] <= |evs|
    requires HasSurfaced(c, evs, ms, id) && !Removes(e, id)
    ensures HasSurfaced(d, evs + [e], ms + more, id)
  {
    var k :| 0 <= k < |ms| && c.ready[k].streamId == id && !RemovedBetween(evs, ms[k], |evs|, id);
    assert d.ready[..|c.ready|][k] == d.ready[k];
    RemovedPrefix(evs, [e], ms[k], |evs|, id);
    assert (ms + more)[k] == ms[k];
  }

  lemma AccountedMore(c: Conn, evs: seq<Event>, e: Event, ms: seq<nat>, hpack: Hpack)
    requires !c.failed && !Apply(c, e, hpack).failed && |ms| == |c.ready| && Accounted(c, evs, ms)
    requires SurfacesReady(c, Apply(c, e, hpack))
    ensures var d := Apply(c, e, hpack);
            var ms' := ms + if |d.ready| > |c.ready| then [|evs| + 1] else [];
            |ms'| == |d.ready| && Accounted(d, evs + [e], ms')
  {
    var d := Apply(c, e, hpack);
    var more := if |d.ready| > |c.ready| then [|evs| + 1] else [];
    assert c.ready[..|c.ready|] == c.ready;
    forall id | id in d.streams && d.streams[id].dispatched ensures HasSurfaced(d, evs + [e], ms + more, id) {
      MarksChange(c, e, id, hpack);
      if id in c.streams && c.streams[id].dispatched && !Removes(e, id) {
        SurfacedStays(c, d, evs, e, ms, more, id);
      } else {
        assert (ms + more)[|ms|] == |evs| + 1;
        assert !RemovedBetween(evs + [e], |evs| + 1, |evs + [e]|, id);
      }
    }
  }

  lemma {:induction false} RunPunctual(evs: seq<Event>, hpack: Hpack)
    ensures var c, ms := Run(evs, hpack), Moments(evs, hpack);
            Punctual(c, evs, ms, hpack) && (!c.failed ==> Accounted(c, evs, ms))
    decreases |evs|
  {
    if evs != [] {
      var init, e := evs[..|evs| - 1], evs[|evs| - 1];
      assert evs == init + [e];
      RunPunctual(init, hpack);
      OneEvent(init, e, hpack);
    }
  }

  lemma OneEvent(init: seq<Event>, e: Event, hpack: Hpack)
    requires var c, ms := Run(init, hpack), Moments(init, hpack);
             Punctual(c, init, ms, hpack) && (!c.failed ==> Accounted(c, init, ms))
    ensures var evs := init + [e];
            var c, ms := Run(evs, hpack), Moments(evs, hpack);
            Punctual(c, evs, ms, hpack) && (!c.failed ==> Accounted(c, evs, ms))
  {
    var c, ms := Run(init, hpack), Moments(init, hpack);
    var evs := init + [e];
    assert evs[..|evs| - 1] == init;
    var d := Run(evs, hpack);
    FailedStays(c, e, hpack);
    assert ms + [] == ms;
    if d.failed {
      assert c.ready[..|c.ready|] == c.ready;
      PunctualKept(c, d, init, e, ms, hpack);
    } else {
      if e.Arrives? {
        HandleReady(c, e.frame, hpack);
      }
      AccountedMore(c, init, e, ms, hpack);
      if d.ready == c.ready {
        assert c.ready[..|c.ready|] == c.ready;
        PunctualKept(c, d, init, e, ms, hpack);
      } else {
        SurfacedPunctual(init, e, hpack);
        PunctualMore(c, d, init, e, ms, hpack);
      }
    }
  }

  /** Every stream that is ready, by its frames, has surfaced since it was opened. */
  ghost predicate NoneWithheld(c: Conn, evs: seq<Event>, ms: seq<nat>)
    requires |ms| == |c.ready|
  {
    forall id :: Ready(ToldOf(evs, id)) ==> HasSurfaced(c, evs, ms, id)
  }

  /** Under any interleaving of streams, resets and responses: each request surfaced when its frames had told a whole header block
      and the end of its stream, and it says the last values under its names; and as long as the connection has not failed,
      every stream that has both, and no header block under way, has surfaced. */
  lemma RequestsSurfaceAtTheEnd(evs: seq<Event>, hpack: Hpack)
    ensures var c, ms := Run(evs, hpack), Moments(evs, hpack);
            Punctual(c, evs, ms, hpack) && (!c.failed ==> NoneWithheld(c, evs, ms))
  {
    RunPunctual(evs, hpack);
    var c, ms := Run(evs, hpack), Moments(evs, hpack);
    if !c.failed {
      RunTold(evs, hpack);
      forall id | Ready(ToldOf(evs, id)) ensures HasSurfaced(c, evs, ms, id) {
        assert StreamAsTold(c, id, ToldOf(evs, id), FieldsOf(evs, id, hpack));
      }
    }
  }
}
