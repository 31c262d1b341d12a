/**
 * What the per-entry loops of `save` and `read` do to a manifest's two entry
 * lists, stated on values. The in-place loops of the `PaperdollTar` module are
 * proved to compute exactly these.
 *
 * Encoding an image to a file and decoding a file to an image are oracles:
 * `save_buffer` becomes an `Encoder` that may fail, `image::open(..).into_rgba8()`
 * a `Decoder` keyed by the entry's path that may fail. The staging directory
 * is a map from file name to the image written under it.
 */
module Passes {
  import opened Wrappers
  import opened Naming

  type u8 = x: int | 0 <= x < 0x100
  type u32 = x: int | 0 <= x < 0x1_0000_0000

  /** An inline RGBA8 image, row-major, four bytes per pixel. */
  datatype Image = Image(width: u32, height: u32, pixels: seq<u8>)

  /** An image is empty when it has no pixel bytes, whatever its width and height. */
  predicate IsEmpty(image: Image) {
    |image.pixels| == 0
  }

  /** The part of a doll or a fragment the two passes read and write. */
  datatype Entry = Entry(id: u32, path: string, image: Image)

  /** `image::save_buffer` of an image under a file name in the staging directory. */
  type Encoder = (string, Image) -> Outcome

  /** `image::open` of a path in the staging directory, converted to RGBA8. */
  type Decoder = string -> Result<Image>

  /** Every id occurs at most once in a collection. */
  predicate DistinctIds(es: seq<Entry>) {
    forall i, j :: 0 <= i < j < |es| ==> es[i].id != es[j].id
  }

  /** Replacing the first element after a visited prefix, as the loops do. */
  lemma ReplaceAfterPrefix(done: seq<Entry>, rest: seq<Entry>, x: Entry)
    requires rest != []
    ensures (done + rest)[|done| := x] == done + [x] + rest[1..]
    ensures done + rest == done + [rest[0]] + rest[1..]
  {
  }

  /** Splitting a suffix into its head and the rest, as the loops do. */
  lemma SuffixHead(es: seq<Entry>, i: nat)
    requires i < |es|
    ensures es[i..] == [es[i]] + es[i + 1..]
    ensures es[i..][1..] == es[i + 1..]
    ensures es[..i + 1] + es[i + 1..] == es
  {
  }

  // ===========================================================================
  // The save pass
  // ===========================================================================

  /**
   * How a save loop names the image file of an entry, from its id and current
   * path. The loops below are stated for any namer; `save` uses `NameFor`.
   */
  type Namer = (nat, string) -> string

  /** The names `save` writes: `doll_{id}.{ext}` in the doll loop, `fragment_{id}.{ext}` in the fragment loop. */
  function NameFor(kind: Kind): Namer {
    (id: nat, path: string) => GeneratedName(kind, id, path)
  }

  /** No two entries of the collection get the same name. */
  predicate NamesDistinct(name: Namer, es: seq<Entry>) {
    forall i, j :: 0 <= i < j < |es| ==> name(es[i].id, es[i].path) != name(es[j].id, es[j].path)
  }

  /** Naming an entry whose path already is its name gives that name again. */
  predicate NamesSettle(name: Namer, es: seq<Entry>) {
    forall i :: 0 <= i < |es| ==> name(es[i].id, name(es[i].id, es[i].path)) == name(es[i].id, es[i].path)
  }

  /** `n` is the name of no entry of the collection. */
  predicate NamesNone(name: Namer, es: seq<Entry>, n: string) {
    forall i :: 0 <= i < |es| ==> name(es[i].id, es[i].path) != n
  }

  /** The entry `save` leaves behind once it has visited it: a non-empty image gets its generated name. */
  function SavedEntry(name: Namer, e: Entry): (r: Entry)
    ensures r.id == e.id && r.image == e.image
    ensures IsEmpty(e.image) ==> r == e
  {
    if IsEmpty(e.image) then e else e.(path := name(e.id, e.path))
  }

  /** The save loop visits `e` and the encoder refuses its image. */
  predicate EncodeFails(name: Namer, e: Entry, encode: Encoder) {
    !IsEmpty(e.image) && encode(name(e.id, e.path), e.image).Fail?
  }

  datatype SaveState = SaveState(entries: seq<Entry>, files: map<string, Image>, status: Outcome)

  /**
   * One save loop over a collection, entry after entry: skip an empty image;
   * otherwise set the path to the generated name, then encode; stop at the
   * first failure, leaving the rest as they were.
   */
  function SaveList(name: Namer, es: seq<Entry>, files: map<string, Image>, encode: Encoder): (s: SaveState)
    ensures |s.entries| == |es|
    decreases |es|
  {
    if es == [] then SaveState([], files, Pass)
    else
      var s := SaveList(name, es[..|es| - 1], files, encode);
      var e := es[|es| - 1];
      if s.status.Fail? || IsEmpty(e.image) then
        SaveState(s.entries + [e], s.files, s.status)
      else
        var written := name(e.id, e.path);
        var status := encode(written, e.image);
        SaveState(s.entries + [e.(path := written)],
                  if status.Pass? then s.files[written := e.image] else s.files,
                  status)
  }

  /** The index of the first entry whose image the encoder refuses, or |es| when there is none. */
  function FirstEncodeFailure(name: Namer, es: seq<Entry>, encode: Encoder): (k: nat)
    ensures k <= |es|
    ensures k < |es| ==> EncodeFails(name, es[k], encode)
    ensures forall i :: 0 <= i < k ==> !EncodeFails(name, es[i], encode)
  {
    if es == [] then 0
    else
      var init := es[..|es| - 1];
      var k := FirstEncodeFailure(name, init, encode);
      assert forall i :: 0 <= i < |init| ==> init[i] == es[i];
      if k < |es| - 1 then k
      else if EncodeFails(name, es[|es| - 1], encode) then |es| - 1
      else |es|
  }

  /** One more entry visited by a save loop that has not failed, for the loop's invariant. */
  lemma SaveListStep(name: Namer, es: seq<Entry>, i: nat, files: map<string, Image>, encode: Encoder)
    requires i < |es|
    requires SaveList(name, es[..i], files, encode).status.Pass?
    ensures var s := SaveList(name, es[..i], files, encode);
            var e := es[i];
            var written := name(e.id, e.path);
            SaveList(name, es[..i + 1], files, encode) ==
              SaveState(s.entries + [SavedEntry(name, e)],
                        if IsEmpty(e.image) || EncodeFails(name, e, encode) then s.files else s.files[written := e.image],
                        if IsEmpty(e.image) then Pass else encode(written, e.image))
  {
    assert es[..i + 1][..i] == es[..i];
  }

  /** Once a save loop has failed, the entries after it are left as they are and nothing more is written. */
  lemma {:induction false} SaveListStopsAtFailure(name: Namer, es: seq<Entry>, rest: seq<Entry>,
                                                  files: map<string, Image>, encode: Encoder)
    requires SaveList(name, es, files, encode).status.Fail?
    ensures var s := SaveList(name, es, files, encode);
            SaveList(name, es + rest, files, encode) == SaveState(s.entries + rest, s.files, s.status)
    decreases |rest|
  {
    var s := SaveList(name, es, files, encode);
    if rest == [] {
      assert es + rest == es;
    } else {
      var init := rest[..|rest| - 1];
      SaveListStopsAtFailure(name, es, init, files, encode);
      assert (es + rest)[..|es + rest| - 1] == es + init;
      assert s.entries + init + [rest[|rest| - 1]] == s.entries + rest;
    }
  }

  /** A save loop passes exactly when no image is refused, and otherwise fails with the first refusal. */
  lemma {:induction false} SaveListStatus(name: Namer, es: seq<Entry>, files: map<string, Image>, encode: Encoder)
    ensures var s := SaveList(name, es, files, encode);
            var k := FirstEncodeFailure(name, es, encode);
            && (s.status.Pass? <==> k == |es|)
            && (k < |es| ==> s.status == encode(name(es[k].id, es[k].path), es[k].image))
    decreases |es|
  {
    if es != [] {
      var init := es[..|es| - 1];
      SaveListStatus(name, init, files, encode);
      assert forall i :: 0 <= i < |init| ==> init[i] == es[i];
    }
  }

  /**
   * What a save loop leaves in the list: entries up to and including the first
   * refused one k carry their generated names (k's path is set before it is
   * encoded), entries after k are untouched, and empty images are skipped.
   */
  lemma {:induction false} SaveListEntries(name: Namer, es: seq<Entry>, files: map<string, Image>, encode: Encoder)
    ensures var s := SaveList(name, es, files, encode);
            var k := FirstEncodeFailure(name, es, encode);
            forall i :: 0 <= i < |es| ==> s.entries[i] == if i <= k then SavedEntry(name, es[i]) else es[i]
    decreases |es|
  {
    if es != [] {
      var init := es[..|es| - 1];
      var e := es[|es| - 1];
      SaveListEntries(name, init, files, encode);
      SaveListStatus(name, init, files, encode);
      var s := SaveList(name, es, files, encode);
      var s0 := SaveList(name, init, files, encode);
      var k := FirstEncodeFailure(name, es, encode);
      var e' := if s0.status.Fail? then e else SavedEntry(name, e);
      assert s.entries == s0.entries + [e'];
      forall i | 0 <= i < |es|
        ensures s.entries[i] == if i <= k then SavedEntry(name, es[i]) else es[i]
      {
        if i < |es| - 1 {
          assert s.entries[i] == s0.entries[i];
          assert es[i] == init[i];
        }
      }
    }
  }

  /**
   * The whole outcome of a save loop: it passes exactly when no image is
   * refused; otherwise its error is the encoder's for the first refused entry
   * k. Entries up to and including k carry their generated names, entries
   * after k are untouched, and empty images are skipped throughout.
   */
  lemma SaveListStopsAtFirstFailure(name: Namer, es: seq<Entry>, files: map<string, Image>, encode: Encoder)
    ensures var s := SaveList(name, es, files, encode);
            var k := FirstEncodeFailure(name, es, encode);
            && (s.status.Pass? <==> k == |es|)
            && (k < |es| ==> s.status == encode(name(es[k].id, es[k].path), es[k].image))
            && forall i :: 0 <= i < |es| ==> s.entries[i] == if i <= k then SavedEntry(name, es[i]) else es[i]
  {
    SaveListStatus(name, es, files, encode);
    SaveListEntries(name, es, files, encode);
  }

  /** A save loop keeps every entry's id and image, and the order and number of entries. */
  lemma SaveListKeepsIdsAndImages(name: Namer, es: seq<Entry>, files: map<string, Image>, encode: Encoder)
    ensures var s := SaveList(name, es, files, encode);
            && |s.entries| == |es|
            && forall i :: 0 <= i < |es| ==> s.entries[i].id == es[i].id && s.entries[i].image == es[i].image
  {
    SaveListStopsAtFirstFailure(name, es, files, encode);
  }

  /** A save loop writes only the names of its own entries; every other file is left as it was. */
  lemma {:induction false} SaveListWritesOwnNames(name: Namer, es: seq<Entry>, files: map<string, Image>, encode: Encoder)
    ensures var s := SaveList(name, es, files, encode);
            forall n :: NamesNone(name, es, n) ==>
              (n in s.files <==> n in files) && (n in files ==> s.files[n] == files[n])
    decreases |es|
  {
    if es != [] {
      var init := es[..|es| - 1];
      SaveListWritesOwnNames(name, init, files, encode);
      var e := es[|es| - 1];
      var s := SaveList(name, es, files, encode);
      var s0 := SaveList(name, init, files, encode);
      forall n | NamesNone(name, es, n)
        ensures (n in s.files <==> n in files) && (n in files ==> s.files[n] == files[n])
      {
        assert NamesNone(name, init, n) by {
          forall i | 0 <= i < |init| ensures name(init[i].id, init[i].path) != n {
            assert init[i] == es[i];
          }
        }
        assert name(e.id, e.path) != n;
      }
    }
  }

  /**
   * When the entries' names are distinct, each image encoded before the first
   * failure is in the staging directory under its entry's generated name.
   */
  lemma {:induction false} SaveListStagesEachImage(name: Namer, es: seq<Entry>, files: map<string, Image>, encode: Encoder)
    requires NamesDistinct(name, es)
    ensures var s := SaveList(name, es, files, encode);
            forall i :: 0 <= i < FirstEncodeFailure(name, es, encode) && !IsEmpty(es[i].image) ==>
              name(es[i].id, es[i].path) in s.files && s.files[name(es[i].id, es[i].path)] == es[i].image
    decreases |es|
  {
    if es != [] {
      var init := es[..|es| - 1];
      assert NamesDistinct(name, init) by {
        forall i, j | 0 <= i < j < |init|
          ensures name(init[i].id, init[i].path) != name(init[j].id, init[j].path)
        {
          assert init[i] == es[i] && init[j] == es[j];
        }
      }
      SaveListStagesEachImage(name, init, files, encode);
      SaveListStatus(name, init, files, encode);
      var e := es[|es| - 1];
      var s := SaveList(name, es, files, encode);
      var s0 := SaveList(name, init, files, encode);
      forall i | 0 <= i < FirstEncodeFailure(name, es, encode) && !IsEmpty(es[i].image)
        ensures name(es[i].id, es[i].path) in s.files
        ensures s.files[name(es[i].id, es[i].path)] == es[i].image
      {
        if i < |es| - 1 {
          assert es[i] == init[i];
          assert name(es[i].id, es[i].path) != name(e.id, e.path);
        }
      }
    }
  }

  /** A save loop that passed leaves each carried image in the staging directory under the entry's new path. */
  lemma SavedPathsNameStagedImages(name: Namer, es: seq<Entry>, files: map<string, Image>, encode: Encoder)
    requires NamesDistinct(name, es)
    requires SaveList(name, es, files, encode).status.Pass?
    ensures var s := SaveList(name, es, files, encode);
            forall i :: 0 <= i < |es| && !IsEmpty(es[i].image) ==>
              s.entries[i].path in s.files && s.files[s.entries[i].path] == s.entries[i].image
  {
    SaveListStopsAtFirstFailure(name, es, files, encode);
    SaveListStagesEachImage(name, es, files, encode);
  }

  // ---------------------------------------------------------------------------
  // The names `save` uses
  // ---------------------------------------------------------------------------

  /** Distinct ids give distinct names within a collection. */
  lemma NameForDistinct(kind: Kind, es: seq<Entry>)
    requires DistinctIds(es)
    ensures NamesDistinct(NameFor(kind), es)
  {
    forall i, j | 0 <= i < j < |es|
      ensures GeneratedName(kind, es[i].id, es[i].path) != GeneratedName(kind, es[j].id, es[j].path)
    {
      if GeneratedName(kind, es[i].id, es[i].path) == GeneratedName(kind, es[j].id, es[j].path) {
        GeneratedNameInjective(kind, es[i].id, es[i].path, kind, es[j].id, es[j].path);
      }
    }
  }

  /** A generated name, taken as the path, generates itself again. */
  lemma NameForSettles(kind: Kind, es: seq<Entry>)
    ensures NamesSettle(NameFor(kind), es)
  {
    forall i | 0 <= i < |es|
      ensures GeneratedName(kind, es[i].id, GeneratedName(kind, es[i].id, es[i].path))
              == GeneratedName(kind, es[i].id, es[i].path)
    {
      GeneratedNameFixpoint(kind, es[i].id, es[i].path);
    }
  }

  /** A doll's name is never a fragment's name. */
  lemma DollNameIsNoFragmentName(id: nat, path: string, fragments: seq<Entry>)
    ensures NamesNone(NameFor(Fragment), fragments, GeneratedName(Doll, id, path))
  {
    forall i | 0 <= i < |fragments|
      ensures GeneratedName(Fragment, fragments[i].id, fragments[i].path) != GeneratedName(Doll, id, path)
    {
      if GeneratedName(Fragment, fragments[i].id, fragments[i].path) == GeneratedName(Doll, id, path) {
        GeneratedNameInjective(Fragment, fragments[i].id, fragments[i].path, Doll, id, path);
      }
    }
  }

  // ===========================================================================
  // The read pass
  // ===========================================================================

  /** The read loop visits `e` and the decoder fails on its path. */
  predicate DecodeFails(e: Entry, decode: Decoder) {
    e.path != "" && decode(e.path).Err?
  }

  /** The entry `read` leaves behind once it has decoded it: the image is the decoded one. */
  function LoadedEntry(e: Entry, decode: Decoder): (r: Entry)
    requires !DecodeFails(e, decode)
    ensures r.id == e.id && r.path == e.path
    ensures e.path == "" ==> r == e
  {
    if e.path == "" then e
    else
      var image := decode(e.path).value;
      e.(image := Image(image.width, image.height, image.pixels))
  }

  datatype LoadState = LoadState(entries: seq<Entry>, status: Outcome)

  /**
   * One read loop over a collection, entry after entry: skip an empty path;
   * otherwise decode the file it names and replace width, height and pixels;
   * stop at the first failure, leaving the failing entry and the rest as they were.
   */
  function LoadList(es: seq<Entry>, decode: Decoder): (s: LoadState)
    ensures |s.entries| == |es|
    decreases |es|
  {
    if es == [] then LoadState([], Pass)
    else
      var s := LoadList(es[..|es| - 1], decode);
      var e := es[|es| - 1];
      if s.status.Fail? || e.path == "" then LoadState(s.entries + [e], s.status)
      else
        match decode(e.path)
        case Ok(image) =>
          LoadState(s.entries + [e.(image := Image(image.width, image.height, image.pixels))], Pass)
        case Err(message) => LoadState(s.entries + [e], Fail(message))
  }

  /** The index of the first entry whose file does not decode, or |es| when there is none. */
  function FirstDecodeFailure(es: seq<Entry>, decode: Decoder): (k: nat)
    ensures k <= |es|
    ensures k < |es| ==> DecodeFails(es[k], decode)
    ensures forall i :: 0 <= i < k ==> !DecodeFails(es[i], decode)
  {
    if es == [] then 0
    else
      var k := FirstDecodeFailure(es[..|es| - 1], decode);
      if k < |es| - 1 then k
      else if DecodeFails(es[|es| - 1], decode) then |es| - 1
      else |es|
  }

  /** One more entry visited by a read loop that has not failed, for the loop's invariant. */
  lemma LoadListStep(es: seq<Entry>, i: nat, decode: Decoder)
    requires i < |es|
    requires LoadList(es[..i], decode).status.Pass?
    ensures var s := LoadList(es[..i], decode);
            var e := es[i];
            LoadList(es[..i + 1], decode) ==
              if DecodeFails(e, decode) then LoadState(s.entries + [e], Fail(decode(e.path).error))
              else LoadState(s.entries + [LoadedEntry(e, decode)], Pass)
  {
    assert es[..i + 1][..i] == es[..i];
  }

  /** Once a read loop has failed, the entries after it are left as they are. */
  lemma {:induction false} LoadListStopsAtFailure(es: seq<Entry>, rest: seq<Entry>, decode: Decoder)
    requires LoadList(es, decode).status.Fail?
    ensures var s := LoadList(es, decode);
            LoadList(es + rest, decode) == LoadState(s.entries + rest, s.status)
    decreases |rest|
  {
    var s := LoadList(es, decode);
    if rest == [] {
      assert es + rest == es;
    } else {
      var init := rest[..|rest| - 1];
      LoadListStopsAtFailure(es, init, decode);
      assert (es + rest)[..|es + rest| - 1] == es + init;
      assert s.entries + init + [rest[|rest| - 1]] == s.entries + rest;
    }
  }

  /**
   * The whole outcome of a read loop: it passes exactly when every non-empty
   * path decodes; otherwise its error is the decoder's for the first failing
   * entry k. Entries before k carry their decoded images, entry k and those
   * after it are untouched, and entries with an empty path are skipped.
   */
  lemma {:induction false} LoadListStopsAtFirstFailure(es: seq<Entry>, decode: Decoder)
    ensures var s := LoadList(es, decode);
            var k := FirstDecodeFailure(es, decode);
            && (s.status.Pass? <==> k == |es|)
            && (k < |es| ==> s.status == Fail(decode(es[k].path).error))
            && forall i :: 0 <= i < |es| ==> s.entries[i] == if i < k then LoadedEntry(es[i], decode) else es[i]
    decreases |es|
  {
    if es != [] {
      var init := es[..|es| - 1];
      LoadListStopsAtFirstFailure(init, decode);
      var s := LoadList(es, decode);
      var s0 := LoadList(init, decode);
      var k := FirstDecodeFailure(es, decode);
      forall i | 0 <= i < |es|
        ensures s.entries[i] == if i < k then LoadedEntry(es[i], decode) else es[i]
      {
        if i < |es| - 1 {
          assert s.entries[i] == s0.entries[i];
          assert es[i] == init[i];
        }
      }
    }
  }

  /** A read loop keeps every entry's id and path, and the order and number of entries. */
  lemma LoadListKeepsIdsAndPaths(es: seq<Entry>, decode: Decoder)
    ensures var s := LoadList(es, decode);
            && |s.entries| == |es|
            && forall i :: 0 <= i < |es| ==> s.entries[i].id == es[i].id && s.entries[i].path == es[i].path
  {
    LoadListStopsAtFirstFailure(es, decode);
  }

  /** A read loop whose decoder gives back each entry's own image changes nothing and passes. */
  lemma LoadListOfOwnImages(es: seq<Entry>, decode: Decoder)
    requires forall i :: 0 <= i < |es| && es[i].path != "" ==> decode(es[i].path) == Ok(es[i].image)
    ensures LoadList(es, decode) == LoadState(es, Pass)
  {
    LoadListStopsAtFirstFailure(es, decode);
    var s := LoadList(es, decode);
    var k := FirstDecodeFailure(es, decode);
    assert s.entries == es;
  }

  // ===========================================================================
  // Both collections: dolls first, then fragments
  // ===========================================================================

  datatype ManifestSave = ManifestSave(dolls: seq<Entry>, fragments: seq<Entry>,
                                       files: map<string, Image>, status: Outcome)

  /** The two save loops of `save`: the fragment loop runs only when the doll loop passed. */
  function SaveManifest(dolls: seq<Entry>, fragments: seq<Entry>, files: map<string, Image>,
                        encode: Encoder): (m: ManifestSave)
    ensures |m.dolls| == |dolls| && |m.fragments| == |fragments|
  {
    var d := SaveList(NameFor(Doll), dolls, files, encode);
    if d.status.Fail? then ManifestSave(d.entries, fragments, d.files, d.status)
    else
      var f := SaveList(NameFor(Fragment), fragments, d.files, encode);
      ManifestSave(d.entries, f.entries, f.files, f.status)
  }

  datatype ManifestLoad = ManifestLoad(dolls: seq<Entry>, fragments: seq<Entry>, status: Outcome)

  /** The two read loops of `read`: the fragment loop runs only when the doll loop passed. */
  function LoadManifest(dolls: seq<Entry>, fragments: seq<Entry>, decode: Decoder): (m: ManifestLoad)
    ensures |m.dolls| == |dolls| && |m.fragments| == |fragments|
  {
    var d := LoadList(dolls, decode);
    if d.status.Fail? then ManifestLoad(d.entries, fragments, d.status)
    else
      var f := LoadList(fragments, decode);
      ManifestLoad(d.entries, f.entries, f.status)
  }

  /**
   * `save` is fail-fast across both collections: it passes exactly when no
   * doll and no fragment image is refused; a refused doll leaves every
   * fragment untouched; within each collection, entries up to and including
   * the refused one carry their generated names and the rest are untouched.
   */
  lemma SaveManifestIsFailFast(dolls: seq<Entry>, fragments: seq<Entry>, files: map<string, Image>, encode: Encoder)
    ensures var m := SaveManifest(dolls, fragments, files, encode);
            var kd := FirstEncodeFailure(NameFor(Doll), dolls, encode);
            var kf := FirstEncodeFailure(NameFor(Fragment), fragments, encode);
            && (m.status.Pass? <==> kd == |dolls| && kf == |fragments|)
            && |m.dolls| == |dolls| && |m.fragments| == |fragments|
            && (forall i :: 0 <= i < |dolls| ==>
                  m.dolls[i] == if i <= kd then SavedEntry(NameFor(Doll), dolls[i]) else dolls[i])
            && (forall i :: 0 <= i < |fragments| ==>
                  m.fragments[i] == if kd == |dolls| && i <= kf then SavedEntry(NameFor(Fragment), fragments[i])
                                    else fragments[i])
  {
    var d := SaveList(NameFor(Doll), dolls, files, encode);
    SaveListStopsAtFirstFailure(NameFor(Doll), dolls, files, encode);
    SaveListStopsAtFirstFailure(NameFor(Fragment), fragments, d.files, encode);
  }

  /**
   * `read` is fail-fast across both collections: it passes exactly when every
   * non-empty doll and fragment path decodes; a failing doll leaves every
   * fragment untouched; within each collection, entries before the failing one
   * carry their decoded images and the rest are untouched.
   */
  lemma LoadManifestIsFailFast(dolls: seq<Entry>, fragments: seq<Entry>, decode: Decoder)
    ensures var m := LoadManifest(dolls, fragments, decode);
            var kd := FirstDecodeFailure(dolls, decode);
            var kf := FirstDecodeFailure(fragments, decode);
            && (m.status.Pass? <==> kd == |dolls| && kf == |fragments|)
            && |m.dolls| == |dolls| && |m.fragments| == |fragments|
            && (forall i :: 0 <= i < |dolls| ==>
                  m.dolls[i] == if i < kd then LoadedEntry(dolls[i], decode) else dolls[i])
            && (forall i :: 0 <= i < |fragments| ==>
                  m.fragments[i] == if kd == |dolls| && i < kf then LoadedEntry(fragments[i], decode) else fragments[i])
  {
    LoadListStopsAtFirstFailure(dolls, decode);
    LoadListStopsAtFirstFailure(fragments, decode);
  }

  // ===========================================================================
  // Round trips
  // ===========================================================================

  /** Every entry either carries an image or has no path: nothing stale is left to be read back. */
  predicate SelfContained(es: seq<Entry>) {
    forall i :: 0 <= i < |es| ==> !IsEmpty(es[i].image) || es[i].path == ""
  }

  /** The doll images `save` staged survive the fragment loop, which writes only fragment names. */
  lemma DollFilesSurviveFragments(dolls: seq<Entry>, fragments: seq<Entry>, encode: Encoder)
    requires DistinctIds(dolls)
    requires SaveManifest(dolls, fragments, map[], encode).status.Pass?
    ensures var m := SaveManifest(dolls, fragments, map[], encode);
            forall i :: 0 <= i < |dolls| && !IsEmpty(dolls[i].image) ==>
              m.dolls[i].path in m.files && m.files[m.dolls[i].path] == m.dolls[i].image
  {
    var d := SaveList(NameFor(Doll), dolls, map[], encode);
    var f := SaveList(NameFor(Fragment), fragments, d.files, encode);
    NameForDistinct(Doll, dolls);
    SavedPathsNameStagedImages(NameFor(Doll), dolls, map[], encode);
    SaveListStopsAtFirstFailure(NameFor(Doll), dolls, map[], encode);
    SaveListWritesOwnNames(NameFor(Fragment), fragments, d.files, encode);
    forall i | 0 <= i < |dolls| && !IsEmpty(dolls[i].image)
      ensures d.entries[i].path in f.files && f.files[d.entries[i].path] == d.entries[i].image
    {
      DollNameIsNoFragmentName(dolls[i].id, dolls[i].path, fragments);
    }
  }

  /** `save` keeps the length and order of both collections, and every id and image. */
  lemma SaveManifestKeepsIdsAndImages(dolls: seq<Entry>, fragments: seq<Entry>, files: map<string, Image>,
                                      encode: Encoder)
    ensures var m := SaveManifest(dolls, fragments, files, encode);
            && |m.dolls| == |dolls| && |m.fragments| == |fragments|
            && (forall i :: 0 <= i < |dolls| ==> m.dolls[i].id == dolls[i].id && m.dolls[i].image == dolls[i].image)
            && (forall i :: 0 <= i < |fragments| ==>
                  m.fragments[i].id == fragments[i].id && m.fragments[i].image == fragments[i].image)
  {
    var d := SaveList(NameFor(Doll), dolls, files, encode);
    SaveListKeepsIdsAndImages(NameFor(Doll), dolls, files, encode);
    SaveListKeepsIdsAndImages(NameFor(Fragment), fragments, d.files, encode);
  }

  /**
   * When both save loops passed on collections with distinct ids, and the
   * decoder returns for each staged file the image encoded into it, `read`
   * passes and leaves the saved manifest as it is.
   */
  lemma LoadOfSavedManifestPasses(dolls: seq<Entry>, fragments: seq<Entry>, encode: Encoder, decode: Decoder)
    requires DistinctIds(dolls) && DistinctIds(fragments)
    requires SelfContained(dolls) && SelfContained(fragments)
    requires SaveManifest(dolls, fragments, map[], encode).status.Pass?
    requires var m := SaveManifest(dolls, fragments, map[], encode);
             forall name :: name in m.files ==> decode(name) == Ok(m.files[name])
    ensures var m := SaveManifest(dolls, fragments, map[], encode);
            LoadManifest(m.dolls, m.fragments, decode) == ManifestLoad(m.dolls, m.fragments, Pass)
  {
    var m := SaveManifest(dolls, fragments, map[], encode);
    var d := SaveList(NameFor(Doll), dolls, map[], encode);
    DollFilesSurviveFragments(dolls, fragments, encode);
    SaveListStopsAtFirstFailure(NameFor(Doll), dolls, map[], encode);
    SaveListStopsAtFirstFailure(NameFor(Fragment), fragments, d.files, encode);
    NameForDistinct(Fragment, fragments);
    SavedPathsNameStagedImages(NameFor(Fragment), fragments, d.files, encode);
    forall i | 0 <= i < |m.dolls| && m.dolls[i].path != ""
      ensures decode(m.dolls[i].path) == Ok(m.dolls[i].image)
    {
    }
    forall i | 0 <= i < |m.fragments| && m.fragments[i].path != ""
      ensures decode(m.fragments[i].path) == Ok(m.fragments[i].image)
    {
    }
    LoadListOfOwnImages(m.dolls, decode);
    LoadListOfOwnImages(m.fragments, decode);
  }

  /**
   * Reading back what `save` wrote restores every image: if both save loops
   * passed on collections with distinct ids, and the decoder returns for each
   * staged file the image encoded into it, then `read` passes and leaves the
   * saved manifest as it is, whose ids, order and images are the original's.
   */
  lemma SaveThenLoadRestoresImages(dolls: seq<Entry>, fragments: seq<Entry>, encode: Encoder, decode: Decoder)
    requires DistinctIds(dolls) && DistinctIds(fragments)
    requires SelfContained(dolls) && SelfContained(fragments)
    requires SaveManifest(dolls, fragments, map[], encode).status.Pass?
    requires var m := SaveManifest(dolls, fragments, map[], encode);
             forall name :: name in m.files ==> decode(name) == Ok(m.files[name])
    ensures var m := SaveManifest(dolls, fragments, map[], encode);
            LoadManifest(m.dolls, m.fragments, decode) == ManifestLoad(m.dolls, m.fragments, Pass)
    ensures var l := LoadManifest(SaveManifest(dolls, fragments, map[], encode).dolls,
                                  SaveManifest(dolls, fragments, map[], encode).fragments, decode);
            && |l.dolls| == |dolls| && |l.fragments| == |fragments|
            && (forall i :: 0 <= i < |dolls| ==> l.dolls[i].id == dolls[i].id && l.dolls[i].image == dolls[i].image)
            && (forall i :: 0 <= i < |fragments| ==>
                  l.fragments[i].id == fragments[i].id && l.fragments[i].image == fragments[i].image)
  {
    LoadOfSavedManifestPasses(dolls, fragments, encode, decode);
    SaveManifestKeepsIdsAndImages(dolls, fragments, map[], encode);
  }

  /**
   * Saving again after a read leaves the paths a passing save chose, for any
   * namer under which names settle: `read` keeps paths, and a path that is
   * already the entry's name is named the same again.
   */
  lemma SaveListResaveKeepsPaths(name: Namer, es: seq<Entry>, files: map<string, Image>, encode: Encoder,
                                 decode: Decoder, files': map<string, Image>, encode': Encoder)
    requires SelfContained(es) && NamesSettle(name, es)
    requires SaveList(name, es, files, encode).status.Pass?
    ensures var s1 := SaveList(name, es, files, encode);
            var s2 := SaveList(name, LoadList(s1.entries, decode).entries, files', encode');
            forall i :: 0 <= i < |es| ==> s2.entries[i].path == s1.entries[i].path
  {
    var s1 := SaveList(name, es, files, encode);
    var l := LoadList(s1.entries, decode);
    var s2 := SaveList(name, l.entries, files', encode');
    SaveListStopsAtFirstFailure(name, es, files, encode);
    LoadListKeepsIdsAndPaths(s1.entries, decode);
    SaveListStopsAtFirstFailure(name, l.entries, files', encode');
    LoadListStopsAtFirstFailure(s1.entries, decode);
    forall i | 0 <= i < |es|
      ensures s2.entries[i].path == s1.entries[i].path
    {
      var e := es[i];
      var x := l.entries[i];
      assert s1.entries[i] == SavedEntry(name, e);
      assert x.id == e.id && x.path == s1.entries[i].path;
      if IsEmpty(e.image) {
        assert s1.entries[i] == e;
        assert x == e;
      } else {
        assert x.path == name(e.id, e.path);
        assert name(x.id, x.path) == x.path;
      }
    }
  }

  /** Saving again after a read keeps every path `save` gave a collection: generated names are fixed points. */
  lemma ResaveKeepsPaths(kind: Kind, es: seq<Entry>, files: map<string, Image>, encode: Encoder,
                         decode: Decoder, files': map<string, Image>, encode': Encoder)
    requires SelfContained(es)
    requires SaveList(NameFor(kind), es, files, encode).status.Pass?
    ensures var s1 := SaveList(NameFor(kind), es, files, encode);
            var s2 := SaveList(NameFor(kind), LoadList(s1.entries, decode).entries, files', encode');
            forall i :: 0 <= i < |es| ==> s2.entries[i].path == s1.entries[i].path
  {
    NameForSettles(kind, es);
    SaveListResaveKeepsPaths(NameFor(kind), es, files, encode, decode, files', encode');
  }
}
