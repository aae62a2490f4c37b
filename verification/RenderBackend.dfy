/**
 The SDL GPU backend as an object whose buffers, counters and caches are updated
 in place; every method does to the state what TextureCache says.
 */
module RenderBackend {
  import opened Common
  import opened TextureLayout
  import opened TextureCache

  datatype TextureRecord = TextureRecord(info: Info, bytes: array<UInt8>, revision: UInt64, live: bool)

  // The upload staging loop for one-channel textures.
  method ExpandChannels(bytes: array<UInt8>) returns (rgba: array<UInt8>)
    ensures fresh(rgba) && rgba[..] == Expanded(bytes[..])
  {
    rgba := new UInt8[4 * bytes.Length](_ => 0);
    for index := 0 to bytes.Length
      invariant forall k :: 0 <= k < 4 * index ==> rgba[k] == bytes[k / 4]
    {
      var alpha := bytes[index];
      rgba[index * 4] := alpha;
      rgba[index * 4 + 1] := alpha;
      rgba[index * 4 + 2] := alpha;
      rgba[index * 4 + 3] := alpha;
    }
  }

  class RenderBackend {
    var initialized: bool
    var nextSurface: UInt32
    var nextTexture: UInt32
    var surfaces: map<UInt32, Surface>
    var textures: map<UInt32, TextureRecord>

    ghost function Buffers(): set<array<UInt8>>
      reads this
    {
      set i | i in textures :: textures[i].bytes
    }

    ghost function RecordAt(i: UInt32): Record
      requires i in textures
      reads this, Buffers()
    {
      var r := textures[i];
      Record(r.info, r.bytes[..], r.revision, r.live)
    }

    ghost function Records(): (m: map<UInt32, Record>)
      reads this, Buffers()
    {
      map i | i in textures :: RecordAt(i)
    }

    ghost function View(): Backend
      reads this, Buffers()
    {
      Backend(initialized, nextSurface, nextTexture, surfaces, Records())
    }

    // Buffers have their texture's size and are not shared.
    ghost predicate Valid()
      reads this, Buffers()
    {
      && (forall i :: i in textures ==> RecordShape(RecordAt(i)))
      && (forall i, j :: i in textures && j in textures && i != j ==> textures[i].bytes != textures[j].bytes)
    }

    constructor ()
      ensures Valid() && View() == Backend(false, 0, 0, map[], map[])
    {
      initialized, nextSurface, nextTexture, surfaces, textures := false, 0, 0, map[], map[];
    }

    method Initialize()
      requires Valid()
      modifies this`initialized
      ensures Valid() && View() == old(View()).(initialized := true)
    {
      initialized := true;
      assert Records() == old(Records());
    }

    predicate FindTexture(h: Handle)
      reads this
    {
      h.generation == 1 && h.index in textures && textures[h.index].live
    }

    method CreateTexture(info: Info, room: bool) returns (r: Result<Handle, Error>)
      requires Valid()
      modifies this
      ensures Valid() && (View(), r) == TextureCache.CreateTexture(old(View()), info, room)
    {
      if !initialized || info.width == 0 || info.height == 0 || info.width > MAX_INT || info.height > MAX_INT {
        return Err(InvalidArgument);
      }
      SizesFit(info);
      var byteCount := StorageSize(info);
      var index := nextTexture;
      nextTexture := Add32(nextTexture, 1);
      assert Records() == old(Records());
      if !room || byteCount > MAX_OBJECT {
        return Err(OutOfMemory);
      }
      if index !in textures {
        AddTexture(index, info, byteCount);
      }
      return Ok(Handle(index, 1));
    }

    method AddTexture(index: UInt32, info: Info, byteCount: nat)
      requires Valid() && index !in textures && InfoOk(info) && byteCount == ByteCount(info) <= MAX_OBJECT
      modifies this`textures
      ensures Valid()
      ensures Records() == old(Records())[index := Record(info, seq(byteCount, _ => 0), 1, true)]
    {
      var bytes := new UInt8[byteCount](_ => 0);
      textures := textures[index := TextureRecord(info, bytes, 1, true)];
      assert RecordAt(index).bytes == seq(byteCount, _ => 0);
      assert forall i :: i in old(textures) ==> RecordAt(i) == old(RecordAt(i));
    }

    method UpdateTexture(h: Handle, u: Update) returns (error: Option<Error>)
      requires Valid()
      modifies this`textures, Buffers()
      ensures Valid() && (View(), error) == TextureCache.UpdateTexture(old(View()), h, u)
      ensures Buffers() == old(Buffers())
    {
      if !FindTexture(h) {
        return Some(InvalidArgument);
      }
      var record := textures[h.index];
      assert RecordShape(RecordAt(h.index));
      var ok := CheckUpdate(record.info, u);
      if !ok {
        return Some(InvalidArgument);
      }
      Overwrite(h.index, u);
      return None;
    }

    method Overwrite(index: UInt32, u: Update)
      requires Valid() && index in textures && textures[index].live && Accepts(textures[index].info, u)
      modifies this`textures, textures[index].bytes
      ensures Valid() && Buffers() == old(Buffers())
      ensures var r := old(RecordAt(index));
        Records() == old(Records())[index := r.(bytes := Updated(r.info, u, r.bytes), revision := Add64(r.revision, 1))]
    {
      var record := textures[index];
      assert RecordShape(RecordAt(index));
      CopyRegion(record.info, u, record.bytes);
      assert forall i :: i in textures && i != index ==> RecordAt(i) == old(RecordAt(i));
      textures := textures[index := record.(revision := Add64(record.revision, 1))];
      assert forall i :: i in textures && i != index ==> RecordAt(i) == old(RecordAt(i));
      SameBuffers(old(textures), textures, index);
    }

    method DestroyTexture(h: Handle) returns (error: Option<Error>)
      requires Valid()
      modifies this`textures, this`surfaces
      ensures Valid() && (View(), error) == TextureCache.DestroyTexture(old(View()), h)
    {
      if !FindTexture(h) {
        return Some(InvalidArgument);
      }
      Release(h.index);
      surfaces := map s | s in surfaces :: WithoutEntry(surfaces[s], h.index);
      assert Records() == old(Records())[h.index := old(RecordAt(h.index)).(live := false, bytes := [])];
      return None;
    }

    // The record dies and gives up its bytes.
    method Release(index: UInt32)
      requires Valid() && index in textures
      modifies this`textures
      ensures Valid() && Records() == old(Records())[index := old(RecordAt(index)).(live := false, bytes := [])]
    {
      var none := new UInt8[0];
      textures := textures[index := textures[index].(live := false, bytes := none)];
      assert RecordAt(index).bytes == [];
    }

    method CreateSurface(valid: bool, native: bool) returns (r: Result<Handle, Error>)
      requires Valid()
      modifies this`nextSurface, this`surfaces
      ensures Valid() && (View(), r) == TextureCache.CreateSurface(old(View()), valid, native)
    {
      if !initialized || !valid {
        return Err(InvalidArgument);
      }
      if !native {
        return Err(SurfaceCreationFailed);
      }
      var index := nextSurface;
      nextSurface := Add32(nextSurface, 1);
      if index !in surfaces {
        surfaces := surfaces[index := Surface(true, map[])];
      }
      assert Records() == old(Records());
      return Ok(Handle(index, 1));
    }

    method DestroySurface(h: Handle) returns (error: Option<Error>)
      requires Valid()
      modifies this`surfaces
      ensures Valid() && (View(), error) == TextureCache.DestroySurface(old(View()), h)
    {
      if !(h.generation == 1 && h.index in surfaces && surfaces[h.index].alive) {
        return Some(InvalidArgument);
      }
      surfaces := surfaces[h.index := Surface(false, map[])];
      assert Records() == old(Records());
      return None;
    }

    // What SDL_UpdateTexture is given, and what the texture then holds.
    method Upload(record: TextureRecord, misread: seq<UInt8>) returns (pixels: seq<UInt8>)
      ensures pixels == Uploaded(Record(record.info, record.bytes[..], record.revision, record.live), misread)
    {
      var data := record.bytes;
      if record.info.format == R8 {
        data := ExpandChannels(record.bytes);
      }
      pixels := if Pitch(record.info) == 4 * record.info.width then data[..] else misread;
    }

    method SynchronizeTexture(s: UInt32, h: Handle, calls: Calls) returns (r: Result<seq<UInt8>, Error>)
      requires Valid() && s in surfaces
      modifies this`surfaces
      ensures Valid() && (View(), r) == Synchronize(old(View()), s, h, calls)
      ensures s in surfaces
    {
      if !FindTexture(h) {
        return Err(RenderFailed);
      }
      var record := textures[h.index];
      assert View().textures[h.index] == RecordAt(h.index);
      var entry := if h.index in surfaces[s].textures then surfaces[s].textures[h.index] else Cached(None, 0);
      var ok;
      entry, ok := Refresh(entry, record, calls);
      assert (entry, ok) == Refreshed(Entry(View().surfaces[s], h.index), View().textures[h.index], calls);
      Store(s, h.index, entry);
      assert View() == WithEntry(old(View()), s, h.index, entry);
      return if ok then Ok(entry.texture.value) else Err(ResourceFailed);
    }

    // Brings the entry that the reference names up to date, as far as SDL allows.
    method Refresh(start: Cached, record: TextureRecord, calls: Calls) returns (entry: Cached, ok: bool)
      ensures (entry, ok) ==
              Refreshed(start, Record(record.info, record.bytes[..], record.revision, record.live), calls)
      ensures ok ==> entry.texture.Some?
    {
      entry := start;
      if entry.texture == None {
        if !calls.create {
          return entry, false;
        }
        entry := entry.(texture := Some([]));
        if !calls.scale {
          entry := entry.(texture := None);
          return entry, false;
        }
      }
      if entry.revision != record.revision {
        if !calls.upload {
          entry := entry.(texture := Some(calls.leftover));
          return entry, false;
        }
        var pixels := Upload(record, calls.leftover);
        entry := Cached(Some(pixels), record.revision);
      }
      return entry, true;
    }

    method Store(s: UInt32, index: UInt32, e: Cached)
      requires s in surfaces
      modifies this`surfaces
      ensures surfaces == old(surfaces)[s := old(surfaces)[s].(textures := old(surfaces)[s].textures[index := e])]
      ensures Records() == old(Records())
    {
      surfaces := surfaces[s := surfaces[s].(textures := surfaces[s].textures[index := e])];
    }

    method ApplyUpdates(updates: seq<TextureUpdate>) returns (error: Option<Error>)
      requires Valid()
      modifies this`textures, Buffers()
      ensures Valid() && (View(), error) == TextureCache.ApplyUpdates(old(View()), updates)
      ensures Buffers() == old(Buffers())
    {
      ghost var start := View();
      assert updates[0..] == updates;
      for k := 0 to |updates|
        invariant Valid() && Buffers() == old(Buffers()) && unchanged(this`surfaces)
        invariant TextureCache.ApplyUpdates(View(), updates[k..]) == TextureCache.ApplyUpdates(start, updates)
      {
        assert updates[k..][1..] == updates[k + 1..];
        error := UpdateTexture(updates[k].texture, updates[k].update);
        if error.Some? {
          return;
        }
      }
      return None;
    }

    method Draw(s: UInt32, p: Packet, batch: Batch, calls: Calls) returns (r: Result<Drawn, Error>)
      requires Valid() && s in surfaces
      modifies this`surfaces
      ensures Valid() && (View(), r) == DrawBatch(old(View()), s, p, batch, calls)
      ensures s in surfaces
    {
      if batch.firstIndex > p.indices || batch.indexCount > p.indices - batch.firstIndex ||
         batch.indexCount > MAX_INT || batch.width > MAX_INT || batch.height > MAX_INT {
        return Err(RenderFailed);
      }
      if !calls.clip {
        return Err(RenderFailed);
      }
      var texture: Drawn := None;
      if batch.texture.Some? {
        var synchronized := SynchronizeTexture(s, batch.texture.value, calls);
        if synchronized.Err? {
          return Err(synchronized.error);
        }
        texture := Some(synchronized.value);
      }
      if p.vertices > 0 && !calls.geometry {
        return Err(RenderFailed);
      }
      return Ok(texture);
    }

    method Render(h: Handle, p: Packet, clear: bool, calls: seq<Calls>) returns (r: Result<seq<Drawn>, Error>)
      requires Valid() && |calls| == |p.batches|
      modifies this`textures, this`surfaces, Buffers()
      ensures Valid() && (View(), r) == TextureCache.Render(old(View()), h, p, clear, calls)
    {
      if !(h.generation == 1 && h.index in surfaces && surfaces[h.index].alive) {
        return Err(RenderFailed);
      }
      UpdatesKeepSurfaces(View(), p.updates);
      var error := ApplyUpdates(p.updates);
      if error.Some? {
        return Err(error.value);
      }
      if p.vertices > MAX_INT || !clear {
        return Err(RenderFailed);
      }
      r := RunBatches(h.index, p, calls);
    }

    method RunBatches(s: UInt32, p: Packet, calls: seq<Calls>) returns (r: Result<seq<Drawn>, Error>)
      requires Valid() && s in surfaces && |calls| == |p.batches|
      modifies this`surfaces
      ensures Valid() && (View(), r) == DrawBatches(old(View()), s, p, p.batches, calls)
    {
      var drawn: seq<Drawn> := [];
      ghost var start := View();
      assert p.batches[0..] == p.batches && calls[0..] == calls;
      ContinuesStart(start, s, p, calls);
      for k := 0 to |p.batches|
        invariant Valid() && s in surfaces
        invariant Continues(start, s, p, calls, k, View(), drawn)
      {
        ghost var before := View();
        var result := Draw(s, p, p.batches[k], calls[k]);
        ContinuesOn(start, s, p, calls, k, before, drawn, View(), result);
        if result.Err? {
          return Err(result.error);
        }
        drawn := drawn + [result.value];
      }
      assert p.batches[|p.batches|..] == [];
      assert drawn + [] == drawn;
      return Ok(drawn);
    }
  }

  // Replacing a record without its buffer leaves the set of buffers alone.
  lemma SameBuffers(before: map<UInt32, TextureRecord>, after: map<UInt32, TextureRecord>, index: UInt32)
    requires index in before && after.Keys == before.Keys
    requires forall i :: i in before ==> after[i].bytes == before[i].bytes
    ensures (set i | i in after :: after[i].bytes) == (set i | i in before :: before[i].bytes)
  {
    assert forall i :: i in after <==> i in before;
  }

  ghost predicate RecordShape(r: Record) {
    InfoOk(r.info) && (r.live ==> |r.bytes| == ByteCount(r.info) <= MAX_OBJECT)
  }

  // The size CreateTexture computes in 64-bit arithmetic.
  method StorageSize(i: Info) returns (n: UInt64)
    requires InfoOk(i)
    ensures n == ByteCount(i)
  {
    SizesFit(i);
    SmallMod(i.width * i.height);
    InBytesIs(i.format, i.width * i.height);
    n := Mul64(Mul64(i.width, i.height), BytesPerPixel(i.format));
    SmallMod(ByteCount(i));
  }

  // Drawing the batches from k on, after `drawn`, is what drawing all of them comes to.
  ghost predicate Continues(start: Backend, s: UInt32, p: Packet, calls: seq<Calls>, k: nat,
                            now: Backend, drawn: seq<Drawn>)
    requires s in start.surfaces && s in now.surfaces && k <= |p.batches| == |calls|
  {
    var (end, rest) := DrawBatches(now, s, p, p.batches[k..], calls[k..]);
    DrawBatches(start, s, p, p.batches, calls) == (end, if rest.Err? then rest else Ok(drawn + rest.value))
  }

  lemma ContinuesStart(start: Backend, s: UInt32, p: Packet, calls: seq<Calls>)
    requires s in start.surfaces && |p.batches| == |calls|
    ensures Continues(start, s, p, calls, 0, start, [])
  {
    assert p.batches[0..] == p.batches && calls[0..] == calls;
    var (end, rest) := DrawBatches(start, s, p, p.batches, calls);
    assert rest.Ok? ==> [] + rest.value == rest.value;
  }

  lemma ContinuesOn(start: Backend, s: UInt32, p: Packet, calls: seq<Calls>, k: nat, before: Backend,
                    drawn: seq<Drawn>, now: Backend, result: Result<Drawn, Error>)
    requires s in start.surfaces && s in before.surfaces && s in now.surfaces && k < |p.batches| == |calls|
    requires Continues(start, s, p, calls, k, before, drawn)
    requires DrawBatch(before, s, p, p.batches[k], calls[k]) == (now, result)
    ensures result.Ok? ==> Continues(start, s, p, calls, k + 1, now, drawn + [result.value])
    ensures result.Err? ==> DrawBatches(start, s, p, p.batches, calls) == (now, Err(result.error))
  {
    assert p.batches[k..][1..] == p.batches[k + 1..] && calls[k..][1..] == calls[k + 1..];
    if result.Ok? {
      var (end, rest) := DrawBatches(now, s, p, p.batches[k + 1..], calls[k + 1..]);
      if rest.Ok? {
        assert drawn + ([result.value] + rest.value) == drawn + [result.value] + rest.value;
      }
    }
  }
}
