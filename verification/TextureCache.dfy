/**
 The texture store and the per-surface texture caches of the SDL GPU backend, as
 functions on values. The outcome of each SDL call is a parameter.
 */
module TextureCache {
  import opened Common
  import opened TextureLayout

  const WORD: nat := 0x1_0000_0000_0000_0000

  datatype Record = Record(info: Info, bytes: seq<UInt8>, revision: UInt64, live: bool)

  // What a surface knows about a texture: the pixels its SDL texture holds, and
  // the revision they were uploaded from.
  datatype Cached = Cached(texture: Option<seq<UInt8>>, revision: UInt64)

  datatype Surface = Surface(alive: bool, textures: map<UInt32, Cached>)

  datatype Handle = Handle(index: UInt32, generation: UInt32)

  datatype Backend = Backend(
    initialized: bool,
    nextSurface: UInt32,
    nextTexture: UInt32,
    surfaces: map<UInt32, Surface>,
    textures: map<UInt32, Record>)

  datatype Error = InvalidArgument | OutOfMemory | ResourceFailed | RenderFailed | SurfaceCreationFailed

  predicate HasTexture(b: Backend, h: Handle) {
    h.generation == 1 && h.index in b.textures && b.textures[h.index].live
  }

  predicate HasSurface(b: Backend, h: Handle) {
    h.generation == 1 && h.index in b.surfaces && b.surfaces[h.index].alive
  }

  /* ---------- what an upload leaves in an SDL texture ---------- */

  // One byte becomes four equal channels.
  function Expanded(bytes: seq<UInt8>): (r: seq<UInt8>)
    ensures |r| == 4 * |bytes| && forall k :: 0 <= k < |r| ==> r[k] == bytes[k / 4]
  {
    seq(4 * |bytes|, k requires 0 <= k < 4 * |bytes| => bytes[k / 4])
  }

  function Encoded(r: Record): seq<UInt8> {
    if r.info.format == R8 then Expanded(r.bytes) else r.bytes
  }

  // width * 4 in 32-bit unsigned arithmetic, converted to int.
  function Pitch(i: Info): Int32 {
    var p := i.width * 4 % 0x1_0000_0000;
    if p < 0x8000_0000 then p else p - 0x1_0000_0000
  }

  // SDL reads the rows at the pitch; what it makes of a wrong one is a parameter.
  function Uploaded(r: Record, misread: seq<UInt8>): seq<UInt8> {
    if Pitch(r.info) == 4 * r.info.width then Encoded(r) else misread
  }

  predicate Narrow(i: Info) {
    i.width < 0x2000_0000
  }

  /** The pitch is right exactly for textures narrower than 2^29 pixels. */
  lemma PitchExact(i: Info)
    requires InfoOk(i)
    ensures Pitch(i) == 4 * i.width <==> Narrow(i)
  {
    if i.width >= 0x4000_0000 {
      assert i.width * 4 % 0x1_0000_0000 == i.width * 4 - 0x1_0000_0000;
    }
  }

  /** An upload leaves the encoding, whatever SDL makes of a wrong pitch,
      exactly for those widths. */
  lemma UploadedExact(r: Record)
    requires InfoOk(r.info) && |r.bytes| == ByteCount(r.info)
    ensures (forall misread :: Uploaded(r, misread) == Encoded(r)) <==> Narrow(r.info)
  {
    PitchExact(r.info);
    EncodedIsNotEmpty(r);
    if !Narrow(r.info) {
      assert Uploaded(r, []) == [];
    }
  }

  lemma EncodedIsNotEmpty(r: Record)
    requires InfoOk(r.info) && |r.bytes| == ByteCount(r.info)
    ensures |Encoded(r)| > 0
  {
    Product(1, 1, r.info.width, r.info.height);
  }

  /* ---------- operations ---------- */

  // `room` says whether the allocator can provide the storage.
  function CreateTexture(b: Backend, info: Info, room: bool): (Backend, Result<Handle, Error>) {
    if !b.initialized || !InfoOk(info) then (b, Err(InvalidArgument))
    else
      var index := b.nextTexture;
      var c := b.(nextTexture := Add32(index, 1));
      if !room || ByteCount(info) > MAX_OBJECT then (c, Err(OutOfMemory))
      else if index in b.textures then (c, Ok(Handle(index, 1)))
      else (c.(textures := b.textures[index := Record(info, seq(ByteCount(info), _ => 0), 1, true)]),
            Ok(Handle(index, 1)))
  }

  predicate AcceptsUpdate(b: Backend, h: Handle, u: Update) {
    HasTexture(b, h) && Accepts(b.textures[h.index].info, u)
  }

  function UpdateTexture(b: Backend, h: Handle, u: Update): (Backend, Option<Error>) {
    if !AcceptsUpdate(b, h, u) then (b, Some(InvalidArgument))
    else
      var r := b.textures[h.index];
      (b.(textures := b.textures[h.index :=
          r.(bytes := Updated(r.info, u, r.bytes), revision := Add64(r.revision, 1))]), None)
  }

  function WithoutEntry(s: Surface, index: UInt32): Surface {
    s.(textures := map i | i in s.textures && i != index :: s.textures[i])
  }

  function DestroyTexture(b: Backend, h: Handle): (Backend, Option<Error>) {
    if !HasTexture(b, h) then (b, Some(InvalidArgument))
    else
      (b.(textures := b.textures[h.index := b.textures[h.index].(live := false, bytes := [])],
          surfaces := map s | s in b.surfaces :: WithoutEntry(b.surfaces[s], h.index)), None)
  }

  // Whether the arguments are valid and the native calls succeed.
  function CreateSurface(b: Backend, valid: bool, native: bool): (Backend, Result<Handle, Error>) {
    if !b.initialized || !valid then (b, Err(InvalidArgument))
    else if !native then (b, Err(SurfaceCreationFailed))
    else
      var index := b.nextSurface;
      var c := b.(nextSurface := Add32(index, 1));
      (if index in b.surfaces then c else c.(surfaces := b.surfaces[index := Surface(true, map[])]),
       Ok(Handle(index, 1)))
  }

  function DestroySurface(b: Backend, h: Handle): (Backend, Option<Error>) {
    if !HasSurface(b, h) then (b, Some(InvalidArgument))
    else (b.(surfaces := b.surfaces[h.index := Surface(false, map[])]), None)
  }

  // Which SDL calls of one batch succeed, and what an upload that fails or has a
  // wrong pitch leaves behind.
  datatype Calls = Calls(clip: bool, create: bool, scale: bool, upload: bool, geometry: bool, leftover: seq<UInt8>)

  function Entry(s: Surface, index: UInt32): Cached {
    if index in s.textures then s.textures[index] else Cached(None, 0)
  }

  // The cache entry after synchronising with a live record, and whether it succeeded.
  function Refreshed(e: Cached, r: Record, calls: Calls): (Cached, bool) {
    if e.texture.None? && !(calls.create && calls.scale) then (e, false)
    else
      // A new texture holds nothing yet.
      var f := if e.texture.None? then e.(texture := Some([])) else e;
      if f.revision == r.revision then (f, true)
      else if !calls.upload then (f.(texture := Some(calls.leftover)), false)
      else (Cached(Some(Uploaded(r, calls.leftover)), r.revision), true)
  }

  function WithEntry(b: Backend, s: UInt32, index: UInt32, e: Cached): Backend
    requires s in b.surfaces
  {
    var surface := b.surfaces[s];
    b.(surfaces := b.surfaces[s := surface.(textures := surface.textures[index := e])])
  }

  function Synchronize(b: Backend, s: UInt32, h: Handle, calls: Calls): (Backend, Result<seq<UInt8>, Error>)
    requires s in b.surfaces
  {
    if !HasTexture(b, h) then (b, Err(RenderFailed))
    else
      var (e, ok) := Refreshed(Entry(b.surfaces[s], h.index), b.textures[h.index], calls);
      (WithEntry(b, s, h.index, e), if ok && e.texture.Some? then Ok(e.texture.value) else Err(ResourceFailed))
  }

  /* ---------- rendering ---------- */

  datatype TextureUpdate = TextureUpdate(texture: Handle, update: Update)

  datatype Batch = Batch(firstIndex: UInt32, indexCount: UInt32, width: UInt32, height: UInt32, texture: Option<Handle>)

  datatype Packet = Packet(updates: seq<TextureUpdate>, vertices: UInt64, indices: UInt64, batches: seq<Batch>)

  // What was drawn by a batch: the pixels of its texture, if it has one.
  type Drawn = Option<seq<UInt8>>

  function ApplyUpdates(b: Backend, updates: seq<TextureUpdate>): (Backend, Option<Error>)
    decreases |updates|
  {
    if updates == [] then (b, None)
    else
      var (c, error) := UpdateTexture(b, updates[0].texture, updates[0].update);
      if error.Some? then (c, error) else ApplyUpdates(c, updates[1..])
  }

  predicate BatchOk(p: Packet, batch: Batch) {
    && batch.firstIndex <= p.indices && batch.indexCount <= p.indices - batch.firstIndex
    && batch.indexCount <= MAX_INT && batch.width <= MAX_INT && batch.height <= MAX_INT
  }

  function DrawBatch(b: Backend, s: UInt32, p: Packet, batch: Batch, calls: Calls): (Backend, Result<Drawn, Error>)
    requires s in b.surfaces
  {
    if !BatchOk(p, batch) || !calls.clip then (b, Err(RenderFailed))
    else
      var (c, pixels) :=
        if batch.texture.Some? then Synchronize(b, s, batch.texture.value, calls) else (b, Ok([]));
      if pixels.Err? then (c, Err(pixels.error))
      else if p.vertices > 0 && !calls.geometry then (c, Err(RenderFailed))
      else (c, Ok(if batch.texture.Some? then Some(pixels.value) else None))
  }

  function DrawBatches(b: Backend, s: UInt32, p: Packet, batches: seq<Batch>, calls: seq<Calls>)
      : (Backend, Result<seq<Drawn>, Error>)
    requires s in b.surfaces && |calls| == |batches|
    decreases |batches|
  {
    if batches == [] then (b, Ok([]))
    else
      var (c, first) := DrawBatch(b, s, p, batches[0], calls[0]);
      if first.Err? then (c, Err(first.error))
      else
        var (d, rest) := DrawBatches(c, s, p, batches[1..], calls[1..]);
        if rest.Err? then (d, rest) else (d, Ok([first.value] + rest.value))
  }

  function Render(b: Backend, h: Handle, p: Packet, clear: bool, calls: seq<Calls>)
      : (Backend, Result<seq<Drawn>, Error>)
    requires |calls| == |p.batches|
  {
    if !HasSurface(b, h) then (b, Err(RenderFailed))
    else
      var (c, error) := ApplyUpdates(b, p.updates);
      if error.Some? then (c, Err(error.value))
      else if p.vertices > MAX_INT || !clear then (c, Err(RenderFailed))
      else UpdatesKeepSurfaces(b, p.updates); DrawBatches(c, h.index, p, p.batches, calls)
  }

  lemma {:induction false} UpdatesKeepSurfaces(b: Backend, updates: seq<TextureUpdate>)
    ensures ApplyUpdates(b, updates).0.surfaces == b.surfaces
    decreases |updates|
  {
    if updates != [] {
      UpdatesKeepSurfaces(UpdateTexture(b, updates[0].texture, updates[0].update).0, updates[1..]);
    }
  }

  /* ---------- coherence ---------- */

  // A cache entry belongs to a live texture, is not ahead of it, and holds its
  // pixels when it carries its revision and the pitch is right.
  ghost predicate EntryOk(b: Backend, index: UInt32, e: Cached) {
    && index in b.textures && b.textures[index].live
    && e.revision <= b.textures[index].revision
    && (e.revision == b.textures[index].revision ==> Holds(b.textures[index], e.texture))
  }

  ghost predicate Holds(r: Record, pixels: Option<seq<UInt8>>) {
    pixels.Some? && (Narrow(r.info) ==> pixels.value == Encoded(r))
  }

  ghost predicate RecordOk(r: Record) {
    && 0 < r.revision && InfoOk(r.info)
    && (r.live ==> |r.bytes| == ByteCount(r.info) <= MAX_OBJECT)
  }

  ghost predicate Coherent(b: Backend) {
    && (forall i :: i in b.textures ==> RecordOk(b.textures[i]))
    && (forall s, i :: s in b.surfaces && i in b.surfaces[s].textures ==> EntryOk(b, i, b.surfaces[s].textures[i]))
  }

  lemma CreateKeeps(b: Backend, info: Info, room: bool)
    requires Coherent(b)
    ensures Coherent(CreateTexture(b, info, room).0)
  {
    var c := CreateTexture(b, info, room).0;
    forall s, i | s in c.surfaces && i in c.surfaces[s].textures
      ensures EntryOk(c, i, c.surfaces[s].textures[i])
    {
      assert EntryOk(b, i, b.surfaces[s].textures[i]);
    }
  }

  lemma UpdateKeeps(b: Backend, h: Handle, u: Update)
    requires Coherent(b) && AcceptsUpdate(b, h, u) && b.textures[h.index].revision + 1 < WORD
    ensures Coherent(UpdateTexture(b, h, u).0)
  {
    var c := UpdateTexture(b, h, u).0;
    forall s, i | s in c.surfaces && i in c.surfaces[s].textures
      ensures EntryOk(c, i, c.surfaces[s].textures[i])
    {
      assert EntryOk(b, i, b.surfaces[s].textures[i]);
    }
  }

  /** A surface that has nothing of a texture gets its pixels after an accepted
      update exactly when the revision counter does not wrap: revision 0 is also
      that of an entry that was never uploaded. */
  lemma FirstUploadExactly(b: Backend, h: Handle, u: Update, s: UInt32, calls: Calls)
    requires Coherent(b) && AcceptsUpdate(b, h, u) && Narrow(b.textures[h.index].info)
    requires s in b.surfaces && Entry(b.surfaces[s], h.index) == Cached(None, 0)
    requires calls.create && calls.scale && calls.upload
    ensures var c := UpdateTexture(b, h, u).0;
      Synchronize(c, s, h, calls).1 == Ok(Encoded(c.textures[h.index])) <==> b.textures[h.index].revision + 1 < WORD
  {
    var c := UpdateTexture(b, h, u).0;
    assert RecordOk(b.textures[h.index]);
    PitchExact(c.textures[h.index].info);
    EncodedIsNotEmpty(c.textures[h.index]);
  }

  // How many of the updates are for texture i.
  function UpdatesOf(updates: seq<TextureUpdate>, i: UInt32): nat {
    if updates == [] then 0
    else (if updates[0].texture.index == i then 1 else 0) + UpdatesOf(updates[1..], i)
  }

  lemma {:induction false} UpdatesAdvance(b: Backend, updates: seq<TextureUpdate>, i: UInt32)
    requires i in b.textures && ApplyUpdates(b, updates).1 == None
    ensures var c := ApplyUpdates(b, updates).0;
      && i in c.textures && c.textures[i].live == b.textures[i].live
      && c.textures[i].revision == (b.textures[i].revision + UpdatesOf(updates, i)) % WORD
    decreases |updates|
  {
    if updates == [] {
      Wraps(b.textures[i].revision, 0, 0);
    } else {
      var first := updates[0];
      var d := UpdateTexture(b, first.texture, first.update).0;
      UpdateAdvances(b, first, i);
      UpdatesAdvance(d, updates[1..], i);
      Wraps(b.textures[i].revision, if first.texture.index == i then 1 else 0, UpdatesOf(updates[1..], i));
    }
  }

  lemma UpdateAdvances(b: Backend, u: TextureUpdate, i: UInt32)
    requires i in b.textures && UpdateTexture(b, u.texture, u.update).1 == None
    ensures var c := UpdateTexture(b, u.texture, u.update).0;
      && i in c.textures && c.textures[i].live == b.textures[i].live
      && c.textures[i].revision == (b.textures[i].revision + if u.texture.index == i then 1 else 0) % WORD
  {
  }

  lemma Wraps(revision: UInt64, j: nat, k: nat)
    ensures revision % WORD == revision
    ensures ((revision + j) % WORD + k) % WORD == (revision + (j + k)) % WORD
  {
  }

  /** After accepted updates without a synchronisation in between, an entry that
      was current is taken as current again, and left as it is, exactly when the
      updates of its texture number a multiple of 2^64. */
  lemma TakenAsCurrentExactly(b: Backend, updates: seq<TextureUpdate>, s: UInt32, h: Handle, calls: Calls)
    requires HasTexture(b, h) && s in b.surfaces && h.index in b.surfaces[s].textures
    requires var e := b.surfaces[s].textures[h.index];
      e.texture.Some? && e.revision == b.textures[h.index].revision
    requires ApplyUpdates(b, updates).1 == None
    ensures var c := ApplyUpdates(b, updates).0;
      && s in c.surfaces
      && (Synchronize(c, s, h, calls) == (c, Ok(b.surfaces[s].textures[h.index].texture.value)) <==>
          UpdatesOf(updates, h.index) % WORD == 0)
  {
    var c, e := ApplyUpdates(b, updates).0, b.surfaces[s].textures[h.index];
    UpdatesKeepSurfaces(b, updates);
    UpdatesAdvance(b, updates, h.index);
    SameAfterWraps(e.revision, UpdatesOf(updates, h.index));
    if c.textures[h.index].revision == e.revision {
      assert c.surfaces[s].textures[h.index := e] == c.surfaces[s].textures;
      assert c.surfaces[s := c.surfaces[s]] == c.surfaces;
    } else if calls.upload {
      assert Synchronize(c, s, h, calls).0.surfaces[s].textures[h.index].revision != e.revision;
    }
  }

  lemma SameAfterWraps(revision: UInt64, k: nat)
    ensures (revision + k) % WORD == revision <==> k % WORD == 0
  {
  }

  lemma DestroyKeeps(b: Backend, h: Handle)
    requires Coherent(b)
    ensures Coherent(DestroyTexture(b, h).0)
  {
    var c := DestroyTexture(b, h).0;
    forall s, i | s in c.surfaces && i in c.surfaces[s].textures
      ensures EntryOk(c, i, c.surfaces[s].textures[i])
    {
      assert i in b.surfaces[s].textures && EntryOk(b, i, b.surfaces[s].textures[i]);
    }
  }

  lemma SurfacesKeep(b: Backend, h: Handle, valid: bool, native: bool)
    requires Coherent(b)
    ensures Coherent(CreateSurface(b, valid, native).0) && Coherent(DestroySurface(b, h).0)
  {
    var c, d := CreateSurface(b, valid, native).0, DestroySurface(b, h).0;
    forall s, i | s in c.surfaces && i in c.surfaces[s].textures
      ensures EntryOk(c, i, c.surfaces[s].textures[i])
    {
      assert EntryOk(b, i, b.surfaces[s].textures[i]);
    }
    forall s, i | s in d.surfaces && i in d.surfaces[s].textures
      ensures EntryOk(d, i, d.surfaces[s].textures[i])
    {
      assert EntryOk(b, i, b.surfaces[s].textures[i]);
    }
  }

  /** Synchronising keeps coherence whatever fails; success yields the record's
      pixels, and a failed upload leaves the entry stale. */
  lemma SynchronizeKeeps(b: Backend, s: UInt32, h: Handle, calls: Calls)
    requires Coherent(b) && s in b.surfaces
    ensures var (c, pixels) := Synchronize(b, s, h, calls);
      && Coherent(c) && c.textures == b.textures && c.surfaces.Keys == b.surfaces.Keys
      && (pixels.Ok? ==> HasTexture(b, h) && Holds(b.textures[h.index], Some(pixels.value)))
      && (pixels.Err? && HasTexture(b, h) ==> Entry(c.surfaces[s], h.index).revision != b.textures[h.index].revision)
  {
    var c := Synchronize(b, s, h, calls).0;
    if HasTexture(b, h) {
      var e := Entry(b.surfaces[s], h.index);
      assert h.index in b.surfaces[s].textures ==> EntryOk(b, h.index, e);
      assert RecordOk(b.textures[h.index]);
      PitchExact(b.textures[h.index].info);
      forall t, i | t in c.surfaces && i in c.surfaces[t].textures
        ensures EntryOk(c, i, c.surfaces[t].textures[i])
      {
        if t != s || i != h.index {
          assert EntryOk(b, i, b.surfaces[t].textures[i]);
        }
      }
    }
  }

  // How many accepted updates a packet may still make before a counter wraps.
  ghost predicate NoWrap(b: Backend, updates: nat) {
    forall i :: i in b.textures ==> b.textures[i].revision + updates < WORD
  }

  lemma {:induction false} UpdatesKeep(b: Backend, updates: seq<TextureUpdate>)
    requires Coherent(b) && NoWrap(b, |updates|)
    ensures Coherent(ApplyUpdates(b, updates).0)
    decreases |updates|
  {
    if updates != [] {
      var c := UpdateTexture(b, updates[0].texture, updates[0].update).0;
      if AcceptsUpdate(b, updates[0].texture, updates[0].update) {
        UpdateKeeps(b, updates[0].texture, updates[0].update);
      }
      UpdatesKeep(c, updates[1..]);
    }
  }

  lemma DrawBatchKeeps(b: Backend, s: UInt32, p: Packet, batch: Batch, calls: Calls)
    requires Coherent(b) && s in b.surfaces
    ensures var (c, drawn) := DrawBatch(b, s, p, batch, calls);
      && Coherent(c) && c.textures == b.textures && c.surfaces.Keys == b.surfaces.Keys
      && (drawn.Ok? ==> DrawnFrom(b.textures, batch, drawn.value))
  {
    if batch.texture.Some? {
      SynchronizeKeeps(b, s, batch.texture.value, calls);
    }
  }

  // The batch was drawn with the given textures' pixels.
  ghost predicate DrawnFrom(textures: map<UInt32, Record>, batch: Batch, drawn: Drawn) {
    match batch.texture
    case None => drawn == None
    case Some(h) => h.index in textures && textures[h.index].live && Holds(textures[h.index], drawn)
  }

  lemma {:induction false} DrawBatchesKeep(b: Backend, s: UInt32, p: Packet, batches: seq<Batch>, calls: seq<Calls>)
    requires Coherent(b) && s in b.surfaces && |calls| == |batches|
    ensures var (c, drawn) := DrawBatches(b, s, p, batches, calls);
      && Coherent(c) && c.textures == b.textures && c.surfaces.Keys == b.surfaces.Keys
      && (drawn.Ok? ==> |drawn.value| == |batches| &&
                        forall k :: 0 <= k < |batches| ==> DrawnFrom(b.textures, batches[k], drawn.value[k]))
    decreases |batches|
  {
    if batches != [] {
      DrawBatchKeeps(b, s, p, batches[0], calls[0]);
      var (c, first) := DrawBatch(b, s, p, batches[0], calls[0]);
      DrawBatchesKeep(c, s, p, batches[1..], calls[1..]);
    }
  }

  /** Every textured batch of a successful render draws the pixels its texture
      has after all of the packet's updates, and the caches stay coherent even
      when rendering fails. */
  lemma RenderUsesUpdates(b: Backend, h: Handle, p: Packet, clear: bool, calls: seq<Calls>)
    requires Coherent(b) && NoWrap(b, |p.updates|) && |calls| == |p.batches|
    ensures var (c, drawn) := Render(b, h, p, clear, calls);
      && Coherent(c)
      && (HasSurface(b, h) ==> c.textures == ApplyUpdates(b, p.updates).0.textures)
      && (drawn.Ok? ==> ApplyUpdates(b, p.updates).1 == None && |drawn.value| == |p.batches| &&
                        forall k :: 0 <= k < |p.batches| ==> DrawnFrom(c.textures, p.batches[k], drawn.value[k]))
  {
    if HasSurface(b, h) {
      UpdatesKeep(b, p.updates);
      UpdatesKeepSurfaces(b, p.updates);
      var (c, error) := ApplyUpdates(b, p.updates);
      if error.None? && p.vertices <= MAX_INT && clear {
        DrawBatchesKeep(c, h.index, p, p.batches, calls);
      }
    }
  }

  /* ---------- indexes ---------- */

  // A new texture gets an index of its own exactly while the counter's next value is unused.
  lemma FreshIndexExactly(b: Backend, info: Info)
    requires b.initialized && InfoOk(info) && ByteCount(info) <= MAX_OBJECT
    ensures var (c, handle) := CreateTexture(b, info, true);
      && handle == Ok(Handle(b.nextTexture, 1))
      && ((b.nextTexture !in b.textures) <==>
          c.textures.Keys != b.textures.Keys && HasTexture(c, handle.value) && c.textures[b.nextTexture].info == info)
  {
    var (c, handle) := CreateTexture(b, info, true);
    if b.nextTexture in b.textures {
      assert c.textures == b.textures;
    } else {
      assert b.nextTexture in c.textures.Keys && b.nextTexture !in b.textures.Keys;
    }
  }

  datatype Operation =
    | CreateTextureOp(info: Info, room: bool)
    | UpdateTextureOp(handle: Handle, update: Update)
    | DestroyTextureOp(handle: Handle)
    | CreateSurfaceOp(valid: bool, native: bool)
    | DestroySurfaceOp(handle: Handle)
    | RenderOp(handle: Handle, packet: Packet, clear: bool, calls: seq<Calls>)

  predicate OperationOk(o: Operation) {
    o.RenderOp? ==> |o.calls| == |o.packet.batches|
  }

  function After(b: Backend, o: Operation): Backend
    requires OperationOk(o)
  {
    match o
    case CreateTextureOp(info, room) => CreateTexture(b, info, room).0
    case UpdateTextureOp(h, u) => UpdateTexture(b, h, u).0
    case DestroyTextureOp(h) => DestroyTexture(b, h).0
    case CreateSurfaceOp(valid, native) => CreateSurface(b, valid, native).0
    case DestroySurfaceOp(h) => DestroySurface(b, h).0
    case RenderOp(h, p, clear, calls) => Render(b, h, p, clear, calls).0
  }

  function AfterAll(b: Backend, os: seq<Operation>): Backend
    requires forall o :: o in os ==> OperationOk(o)
    decreases |os|
  {
    if os == [] then b else AfterAll(After(b, os[0]), os[1..])
  }

  // The most updates an operation can make.
  function Cost(o: Operation): nat {
    match o
    case UpdateTextureOp(_, _) => 1
    case RenderOp(_, p, _, _) => |p.updates|
    case _ => 0
  }

  function TotalCost(os: seq<Operation>): nat {
    if os == [] then 0 else Cost(os[0]) + TotalCost(os[1..])
  }

  // Each texture's revision is at most one more than the updates made so far.
  ghost predicate RevisionsBelow(b: Backend, n: nat) {
    forall i :: i in b.textures ==> b.textures[i].revision <= n + 1
  }

  lemma {:induction false} UpdatesRaise(b: Backend, updates: seq<TextureUpdate>, n: nat)
    requires RevisionsBelow(b, n)
    ensures RevisionsBelow(ApplyUpdates(b, updates).0, n + |updates|)
    decreases |updates|
  {
    if updates != [] {
      UpdatesRaise(UpdateTexture(b, updates[0].texture, updates[0].update).0, updates[1..], n + 1);
    }
  }

  lemma StepKeeps(b: Backend, o: Operation, n: nat)
    requires Coherent(b) && RevisionsBelow(b, n) && OperationOk(o) && n + Cost(o) + 1 < WORD
    ensures Coherent(After(b, o)) && RevisionsBelow(After(b, o), n + Cost(o))
  {
    match o
    case CreateTextureOp(info, room) => CreateKeeps(b, info, room);
    case UpdateTextureOp(h, u) =>
      if AcceptsUpdate(b, h, u) {
        UpdateKeeps(b, h, u);
      }
    case DestroyTextureOp(h) => DestroyKeeps(b, h);
    case CreateSurfaceOp(valid, native) => SurfacesKeep(b, Handle(0, 0), valid, native);
    case DestroySurfaceOp(h) => SurfacesKeep(b, h, false, false);
    case RenderOp(h, p, clear, calls) =>
      RenderUsesUpdates(b, h, p, clear, calls);
      UpdatesRaise(b, p.updates, n);
  }

  lemma {:induction false} AlwaysCoherent(b: Backend, os: seq<Operation>, n: nat)
    requires Coherent(b) && RevisionsBelow(b, n) && n + TotalCost(os) + 1 < WORD
    requires forall o :: o in os ==> OperationOk(o)
    ensures Coherent(AfterAll(b, os))
    decreases |os|
  {
    if os != [] {
      assert os[0] in os && forall o :: o in os[1..] ==> o in os;
      StepKeeps(b, os[0], n);
      AlwaysCoherent(After(b, os[0]), os[1..], n + Cost(os[0]));
    }
  }

  /** In every state reached from an empty backend with fewer than 2^64 - 1
      updates, a cache entry that carries its texture's revision holds exactly
      the encoding of that texture's bytes, if it is narrower than 2^29 pixels. */
  lemma EntriesHoldPixels(b: Backend, os: seq<Operation>, s: UInt32, i: UInt32)
    requires b.surfaces == map[] && b.textures == map[]
    requires (forall o :: o in os ==> OperationOk(o)) && TotalCost(os) + 1 < WORD
    requires var c := AfterAll(b, os);
      s in c.surfaces && i in c.surfaces[s].textures
    ensures var c := AfterAll(b, os);
      && i in c.textures && c.textures[i].live && |c.textures[i].bytes| == ByteCount(c.textures[i].info)
      && (c.surfaces[s].textures[i].revision == c.textures[i].revision && Narrow(c.textures[i].info) ==>
            c.surfaces[s].textures[i].texture == Some(Encoded(c.textures[i])))
  {
    AlwaysCoherent(b, os, 0);
    var c := AfterAll(b, os);
    assert EntryOk(c, i, c.surfaces[s].textures[i]);
    assert RecordOk(c.textures[i]);
  }

  // A destroyed texture stays destroyed, whatever happens, even if the index counter wraps.
  lemma DeadStaysDead(b: Backend, o: Operation, i: UInt32)
    requires OperationOk(o) && i in b.textures && !b.textures[i].live
    ensures i in After(b, o).textures && !After(b, o).textures[i].live
  {
    if o.RenderOp? && HasSurface(b, o.handle) {
      UpdatesKeepDead(b, o.packet.updates, i);
      UpdatesKeepSurfaces(b, o.packet.updates);
      var (c, error) := ApplyUpdates(b, o.packet.updates);
      if error.None? && o.packet.vertices <= MAX_INT && o.clear {
        DrawingKeepsTextures(c, o.handle.index, o.packet, o.packet.batches, o.calls);
      }
    }
  }

  lemma {:induction false} UpdatesKeepDead(b: Backend, updates: seq<TextureUpdate>, i: UInt32)
    requires i in b.textures && !b.textures[i].live
    ensures var c := ApplyUpdates(b, updates).0; i in c.textures && !c.textures[i].live
    decreases |updates|
  {
    if updates != [] {
      UpdatesKeepDead(UpdateTexture(b, updates[0].texture, updates[0].update).0, updates[1..], i);
    }
  }

  lemma {:induction false} DrawingKeepsTextures(b: Backend, s: UInt32, p: Packet, batches: seq<Batch>,
                                                calls: seq<Calls>)
    requires s in b.surfaces && |calls| == |batches|
    ensures DrawBatches(b, s, p, batches, calls).0.textures == b.textures
    decreases |batches|
  {
    if batches != [] {
      DrawingKeepsTextures(DrawBatch(b, s, p, batches[0], calls[0]).0, s, p, batches[1..], calls[1..]);
    }
  }

  lemma {:induction false} NeverReappears(b: Backend, os: seq<Operation>, i: UInt32)
    requires i in b.textures && !b.textures[i].live
    requires forall o :: o in os ==> OperationOk(o)
    ensures i in AfterAll(b, os).textures && !AfterAll(b, os).textures[i].live
    decreases |os|
  {
    if os != [] {
      assert os[0] in os && forall o :: o in os[1..] ==> o in os;
      DeadStaysDead(b, os[0], i);
      NeverReappears(After(b, os[0]), os[1..], i);
    }
  }
}
