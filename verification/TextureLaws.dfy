/** What the texture operations promise, pixel by pixel and call by call. */
module TextureLaws {
  import opened Common
  import opened Division
  import opened TextureLayout
  import opened TextureCache

  /* ---------- one update ---------- */

  // Byte c of row r of the update's rectangle has its place in the texture, in
  // its own row of the span, and in the span.
  predicate HasPlace(i: Info, u: Update, r: nat, c: nat) {
    var size := if i.format == R8 then 1 else 4;
    && 0 <= u.x + c / size < i.width && 0 <= u.y + r < i.height
    && c < u.bytesPerRow && r * u.bytesPerRow + c < |u.bytes|
  }

  // Every byte of the update's rectangle has a place.
  ghost predicate AllHavePlaces(i: Info, u: Update) {
    forall r, c :: 0 <= r < u.height && 0 <= c < u.width * (if i.format == R8 then 1 else 4) ==> HasPlace(i, u, r, c)
  }

  /** An update is accepted exactly when its rectangle is not empty and every byte
      of it has a place in the texture and comes from the span. */
  lemma AcceptedExactly(i: Info, u: Update)
    requires InfoOk(i)
    ensures Accepts(i, u) <==> u.width > 0 && u.height > 0 && AllHavePlaces(i, u)
  {
    var size := if i.format == R8 then 1 else 4;
    if Accepts(i, u) {
      forall r, c | 0 <= r < u.height && 0 <= c < u.width * size
        ensures HasPlace(i, u, r, c)
      {
        Larger(u.bytesPerRow, r, u.height - 1);
      }
    }
    if u.width > 0 && u.height > 0 && AllHavePlaces(i, u) {
      var r, c := u.height - 1, u.width * size - 1;
      assert HasPlace(i, u, r, c) && HasPlace(i, u, 0, 0);
      assert c / size == u.width - 1;
    }
  }

  /** Each channel of each pixel: inside the rectangle it comes from the pixel's
      row and column of the span, outside it stays. */
  lemma UpdatedPixels(i: Info, u: Update, bytes: seq<UInt8>, row: nat, column: nat, channel: nat, k: nat, from: int)
    requires InfoOk(i) && Accepts(i, u) && |bytes| == ByteCount(i) && row < i.height && column < i.width
    requires channel < if i.format == R8 then 1 else 4
    requires k == (row * i.width + column) * (if i.format == R8 then 1 else 4) + channel
    requires from == (row - u.y) * u.bytesPerRow + (column - u.x) * (if i.format == R8 then 1 else 4) + channel
    ensures k < |bytes|
    ensures if u.x <= column < u.x + u.width && u.y <= row < u.y + u.height
            then 0 <= from < |u.bytes| && Updated(i, u, bytes)[k] == u.bytes[from]
            else Updated(i, u, bytes)[k] == bytes[k]
  {
    var p := row * i.width + column;
    Larger(i.width, row + 1, i.height);
    Divided(p, i.width, row, column);
    assert PixelOf(i.format, k) == p;
    if InRows(i, u, u.height, k) {
      SourceInside(i, u, k);
    }
  }

  /* ---------- textures and surfaces ---------- */

  // A size SDL takes.
  predicate SizeOk(n: nat) {
    0 < n <= 0x7fff_ffff
  }

  /** Creating a texture succeeds exactly with a size and storage; it begins black,
      with revision 1, and nothing else changes. */
  lemma CreatedExactly(b: Backend, info: Info, room: bool)
    ensures var (c, r) := CreateTexture(b, info, room);
      var size := info.width * info.height * if info.format == R8 then 1 else 4;
      && (r == Err(InvalidArgument) <==> !(b.initialized && SizeOk(info.width) && SizeOk(info.height)))
      && (r == Err(OutOfMemory) <==>
            b.initialized && SizeOk(info.width) && SizeOk(info.height) && !(room && size < 0x8000_0000_0000_0000))
      && (r.Ok? ==> r.value == Handle(b.nextTexture, 1))
      && c == b.(nextTexture := c.nextTexture, textures := c.textures)
      && c.nextTexture == (b.nextTexture + if r == Err(InvalidArgument) then 0 else 1) % 0x1_0000_0000
      && (forall i :: i in b.textures ==> i in c.textures && c.textures[i] == b.textures[i])
      && (forall i :: i in c.textures && i !in b.textures ==> r.Ok? && i == b.nextTexture)
      && (r.Ok? && b.nextTexture !in b.textures ==> NewTexture(c, b.nextTexture, info, size))
  {
  }

  predicate NewTexture(b: Backend, i: UInt32, info: Info, size: nat) {
    && i in b.textures && b.textures[i].info == info && b.textures[i].live && b.textures[i].revision == 1
    && |b.textures[i].bytes| == size && forall k :: 0 <= k < size ==> b.textures[i].bytes[k] == 0
  }

  // The handle names a texture that was created and not destroyed.
  predicate Known(b: Backend, h: Handle) {
    h.generation == 1 && h.index in b.textures && b.textures[h.index].live
  }

  predicate KnownSurface(b: Backend, h: Handle) {
    h.generation == 1 && h.index in b.surfaces && b.surfaces[h.index].alive
  }

  /** An update succeeds exactly for a known texture and an acceptable rectangle;
      only the bytes and the revision of that texture change. */
  lemma UpdatedExactly(b: Backend, h: Handle, u: Update)
    ensures var (c, error) := UpdateTexture(b, h, u);
      && (error == None <==> Known(b, h) && Accepts(b.textures[h.index].info, u))
      && (error != None ==> error == Some(InvalidArgument) && c == b)
      && (error == None ==>
            && c == b.(textures := c.textures) && c.textures.Keys == b.textures.Keys
            && (forall i :: i in b.textures && i != h.index ==> c.textures[i] == b.textures[i])
            && c.textures[h.index].info == b.textures[h.index].info && Known(c, h)
            && c.textures[h.index].revision == (b.textures[h.index].revision + 1) % 0x1_0000_0000_0000_0000)
  {
  }

  /** Destroying a texture leaves neither the texture nor any surface's entry for
      it, and everything else as it was. */
  lemma DestroyedExactly(b: Backend, h: Handle)
    ensures var (c, error) := DestroyTexture(b, h);
      && (error == None <==> Known(b, h))
      && (error != None ==> error == Some(InvalidArgument) && c == b)
      && !Known(c, h)
      && c == b.(textures := c.textures, surfaces := c.surfaces)
      && c.textures.Keys == b.textures.Keys && c.surfaces.Keys == b.surfaces.Keys
      && (forall i :: i in b.textures && i != h.index ==> c.textures[i] == b.textures[i])
      && (forall s :: s in b.surfaces ==> c.surfaces[s].alive == b.surfaces[s].alive)
      && (forall s, i :: s in b.surfaces && i in c.surfaces[s].textures ==>
            i in b.surfaces[s].textures && c.surfaces[s].textures[i] == b.surfaces[s].textures[i])
      && (error == None ==> c.textures[h.index].bytes == [])
      && (error == None ==> forall s, i :: s in b.surfaces && i in b.surfaces[s].textures ==>
            (i in c.surfaces[s].textures <==> i != h.index))
  {
  }

  /** A new surface knows no texture; a destroyed one is unknown and knows none. */
  lemma SurfacesExactly(b: Backend, valid: bool, native: bool, h: Handle)
    ensures var (c, r) := CreateSurface(b, valid, native);
      && (r == Err(InvalidArgument) <==> !(b.initialized && valid))
      && (r == Err(SurfaceCreationFailed) <==> b.initialized && valid && !native)
      && (r.Err? ==> c == b)
      && (r.Ok? ==>
            && r.value == Handle(b.nextSurface, 1)
            && c == b.(nextSurface := (b.nextSurface + 1) % 0x1_0000_0000, surfaces := c.surfaces)
            && (forall s :: s in b.surfaces ==> s in c.surfaces && c.surfaces[s] == b.surfaces[s])
            && c.surfaces.Keys == b.surfaces.Keys + {b.nextSurface}
            && (b.nextSurface !in b.surfaces ==> c.surfaces[b.nextSurface] == Surface(true, map[])))
    ensures var (c, error) := DestroySurface(b, h);
      && (error == None <==> KnownSurface(b, h))
      && (error != None ==> error == Some(InvalidArgument) && c == b)
      && (error == None ==> c == b.(surfaces := b.surfaces[h.index := Surface(false, map[])]))
  {
  }

  /* ---------- synchronising ---------- */

  /** Synchronising succeeds exactly for a known texture whose calls succeed as far
      as they are made; then the entry carries the revision and its pixels are the
      result. A failed one keeps its old revision. */
  lemma SynchronizedExactly(b: Backend, s: UInt32, h: Handle, calls: Calls)
    requires s in b.surfaces
    ensures var (c, r) := Synchronize(b, s, h, calls);
      && (r == Err(RenderFailed) <==> !Known(b, h))
      && (r.Err? && r != Err(RenderFailed) ==> r == Err(ResourceFailed))
      && (!Known(b, h) ==> c == b)
      && c == b.(surfaces := c.surfaces) && c.surfaces.Keys == b.surfaces.Keys
      && (forall t :: t in b.surfaces && t != s ==> c.surfaces[t] == b.surfaces[t])
      && c.surfaces[s].alive == b.surfaces[s].alive
      && (forall i :: i in b.surfaces[s].textures && i != h.index ==>
            i in c.surfaces[s].textures && c.surfaces[s].textures[i] == b.surfaces[s].textures[i])
      && (forall i :: i in c.surfaces[s].textures && i != h.index ==> i in b.surfaces[s].textures)
  {
  }

  lemma EntryExactly(b: Backend, s: UInt32, h: Handle, calls: Calls)
    requires s in b.surfaces && Known(b, h)
    ensures var (c, r) := Synchronize(b, s, h, calls);
      var had := h.index in b.surfaces[s].textures && b.surfaces[s].textures[h.index].texture != None;
      var revision := if h.index in b.surfaces[s].textures then b.surfaces[s].textures[h.index].revision else 0;
      var current := revision == b.textures[h.index].revision;
      && (r.Ok? <==> (had || (calls.create && calls.scale)) && (current || calls.upload))
      && h.index in c.surfaces[s].textures
      && var e := c.surfaces[s].textures[h.index];
      && (e.texture == None <==> !had && !(calls.create && calls.scale))
      && e.revision == (if r.Ok? then b.textures[h.index].revision else revision)
      && (r.Ok? ==> e.texture == Some(r.value))
      && (had && current ==> e == b.surfaces[s].textures[h.index])
      && (r.Ok? && !current && Pitch(b.textures[h.index].info) == 4 * b.textures[h.index].info.width ==>
            r.value == Encoded(b.textures[h.index]))
  {
  }

  /** What the pixels of an upload are: byte for byte, or each byte four times. */
  lemma EncodedBytes(r: Record, k: nat)
    requires k < |r.bytes|
    ensures r.info.format != R8 ==> |Encoded(r)| == |r.bytes| && Encoded(r)[k] == r.bytes[k]
    ensures r.info.format == R8 ==>
      && |Encoded(r)| == 4 * |r.bytes| && Encoded(r)[4 * k] == r.bytes[k] && Encoded(r)[4 * k + 1] == r.bytes[k]
      && Encoded(r)[4 * k + 2] == r.bytes[k] && Encoded(r)[4 * k + 3] == r.bytes[k]
  {
  }

  /* ---------- rendering ---------- */

  // What a batch needs in order to be drawn when its texture's calls succeed.
  predicate Drawable(b: Backend, p: Packet, batch: Batch, calls: Calls) {
    && batch.firstIndex + batch.indexCount <= p.indices
    && batch.indexCount <= 0x7fff_ffff && batch.width <= 0x7fff_ffff && batch.height <= 0x7fff_ffff
    && calls.clip && (batch.texture != None ==> Known(b, batch.texture.value))
    && (p.vertices > 0 ==> calls.geometry)
  }

  predicate TextureCallsSucceed(calls: seq<Calls>) {
    forall k :: 0 <= k < |calls| ==> calls[k].create && calls[k].scale && calls[k].upload
  }

  predicate AllAccepted(b: Backend, updates: seq<TextureUpdate>) {
    forall k :: 0 <= k < |updates| ==>
      Known(b, updates[k].texture) && Accepts(b.textures[updates[k].texture.index].info, updates[k].update)
  }

  lemma {:induction false} UpdatesSucceed(b: Backend, updates: seq<TextureUpdate>)
    ensures ApplyUpdates(b, updates).1 == None <==> AllAccepted(b, updates)
    ensures ApplyUpdates(b, updates).1 in {None, Some(InvalidArgument)}
    ensures forall h :: Known(ApplyUpdates(b, updates).0, h) == Known(b, h)
    decreases |updates|
  {
    if updates != [] {
      var c := UpdateTexture(b, updates[0].texture, updates[0].update).0;
      UpdatedExactly(b, updates[0].texture, updates[0].update);
      UpdatesSucceed(c, updates[1..]);
      assert updates == [updates[0]] + updates[1..];
      if Known(b, updates[0].texture) && Accepts(b.textures[updates[0].texture.index].info, updates[0].update) {
        assert forall i :: i in b.textures ==>
                 c.textures[i].info == b.textures[i].info && c.textures[i].live == b.textures[i].live;
        assert AllAccepted(c, updates[1..]) <==> AllAccepted(b, updates[1..]);
      }
    }
  }

  predicate AllDrawable(b: Backend, p: Packet, batches: seq<Batch>, calls: seq<Calls>)
    requires |calls| == |batches|
  {
    forall k :: 0 <= k < |batches| ==> Drawable(b, p, batches[k], calls[k])
  }

  lemma DrawBatchSucceeds(b: Backend, s: UInt32, p: Packet, batch: Batch, calls: Calls)
    requires s in b.surfaces
    ensures var (c, r) := DrawBatch(b, s, p, batch, calls);
      && c.textures == b.textures && s in c.surfaces
      && (r.Ok? ==> Drawable(b, p, batch, calls))
      && (calls.create && calls.scale && calls.upload ==> r.Ok? == Drawable(b, p, batch, calls))
      && (r.Err? ==> r.error == RenderFailed || r.error == ResourceFailed)
      && (calls.create && calls.scale && calls.upload && r.Err? ==> r.error == RenderFailed)
  {
    if batch.texture.Some? {
      SynchronizedExactly(b, s, batch.texture.value, calls);
      if Known(b, batch.texture.value) {
        EntryExactly(b, s, batch.texture.value, calls);
      }
    }
  }

  lemma {:induction false} DrawBatchesSucceed(b: Backend, s: UInt32, p: Packet, batches: seq<Batch>, calls: seq<Calls>)
    requires s in b.surfaces && |calls| == |batches|
    ensures var r := DrawBatches(b, s, p, batches, calls).1;
      && (r.Ok? ==> AllDrawable(b, p, batches, calls))
      && (TextureCallsSucceed(calls) ==> r.Ok? == AllDrawable(b, p, batches, calls))
      && (r.Err? ==> r.error == RenderFailed || r.error == ResourceFailed)
      && (TextureCallsSucceed(calls) && r.Err? ==> r.error == RenderFailed)
    decreases |batches|
  {
    if batches != [] {
      DrawBatchSucceeds(b, s, p, batches[0], calls[0]);
      var c := DrawBatch(b, s, p, batches[0], calls[0]).0;
      DrawBatchesSucceed(c, s, p, batches[1..], calls[1..]);
      assert batches == [batches[0]] + batches[1..] && calls == [calls[0]] + calls[1..];
      assert AllDrawable(c, p, batches[1..], calls[1..]) <==> AllDrawable(b, p, batches[1..], calls[1..]);
      assert AllDrawable(b, p, batches, calls) <==>
             Drawable(b, p, batches[0], calls[0]) && AllDrawable(b, p, batches[1..], calls[1..]);
    }
  }

  /** A packet is rendered only if all of this holds, and, where no call about a
      texture fails, whenever it holds. */
  lemma RenderExactly(b: Backend, h: Handle, p: Packet, clear: bool, calls: seq<Calls>)
    requires |calls| == |p.batches|
    ensures var r := Render(b, h, p, clear, calls).1;
      var good := KnownSurface(b, h) && AllAccepted(b, p.updates) && p.vertices <= 0x7fff_ffff && clear
                  && AllDrawable(b, p, p.batches, calls);
      (r.Ok? ==> good) && (TextureCallsSucceed(calls) && good ==> r.Ok?)
  {
    if KnownSurface(b, h) {
      UpdatesSucceed(b, p.updates);
      UpdatesKeepSurfaces(b, p.updates);
      var c := ApplyUpdates(b, p.updates).0;
      assert AllDrawable(c, p, p.batches, calls) <==> AllDrawable(b, p, p.batches, calls);
      DrawBatchesSucceed(c, h.index, p, p.batches, calls);
    }
  }

  /** A refused update is an invalid argument; everything else is a failed rendering,
      or a failed resource where a call about a texture fails. */
  lemma RenderErrors(b: Backend, h: Handle, p: Packet, clear: bool, calls: seq<Calls>)
    requires |calls| == |p.batches|
    ensures var r := Render(b, h, p, clear, calls).1;
      && (r == Err(InvalidArgument) <==> KnownSurface(b, h) && !AllAccepted(b, p.updates))
      && (r.Err? ==> r.error in {InvalidArgument, RenderFailed, ResourceFailed})
      && (r == Err(ResourceFailed) ==> !TextureCallsSucceed(calls))
  {
    if KnownSurface(b, h) {
      UpdatesSucceed(b, p.updates);
      UpdatesKeepSurfaces(b, p.updates);
      DrawBatchesSucceed(ApplyUpdates(b, p.updates).0, h.index, p, p.batches, calls);
    }
  }
}
