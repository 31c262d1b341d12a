/**
 * The loops of `save` and `read` as they run: in place over a manifest's
 * doll and fragment lists, one entry per turn. The turn for a skipped entry
 * returns without touching it, and the loop returns at the first failure. Each method is proved to leave exactly the
 * state the functions of module `Passes` describe.
 */
module PaperdollTar {
  import opened Wrappers
  import opened Naming
  import opened Passes

  /** The temporary directory of one `save`: the image files written so far, by name. */
  class StagingDir {
    var files: map<string, Image>

    /** `TempDir::new`: a fresh, empty directory. */
    constructor ()
      ensures files == map[]
    {
      files := map[];
    }

    /** `image::save_buffer`: encode `image` to the file `name`; a file exists only if encoding passed. */
    method SaveBuffer(name: string, image: Image, encode: Encoder) returns (status: Outcome)
      modifies this
      ensures status == encode(name, image)
      ensures files == if status.Pass? then old(files)[name := image] else old(files)
    {
      status := encode(name, image);
      if status.Pass? {
        files := files[name := image];
      }
    }
  }

  /** The two entry lists of a manifest, which `save` and `read` update in place. */
  class Manifest {
    var dolls: seq<Entry>
    var fragments: seq<Entry>

    constructor (dolls: seq<Entry>, fragments: seq<Entry>)
      ensures this.dolls == dolls && this.fragments == fragments
    {
      this.dolls := dolls;
      this.fragments := fragments;
    }

    /** The list one loop walks: `manifest.dolls` or `manifest.fragments`. */
    function Entries(kind: Kind): seq<Entry>
      reads this
    {
      match kind
      case Doll => dolls
      case Fragment => fragments
    }

    /** Assign entry `i` of one list, leaving the other list alone. */
    method SetEntry(kind: Kind, i: nat, e: Entry)
      requires i < |Entries(kind)|
      modifies this
      ensures Entries(kind) == old(Entries(kind))[i := e]
      ensures kind == Doll ==> fragments == old(fragments)
      ensures kind == Fragment ==> dolls == old(dolls)
    {
      match kind
      case Doll => dolls := dolls[i := e];
      case Fragment => fragments := fragments[i := e];
    }

    /**
     * One turn of the save loop: skip an empty image; otherwise assign the
     * generated name to `path`, then encode the image under that name.
     */
    method SaveEntryAt(kind: Kind, i: nat, staging: StagingDir, encode: Encoder) returns (status: Outcome)
      requires i < |Entries(kind)|
      modifies this, staging
      ensures var e := old(Entries(kind))[i];
              var name := GeneratedName(kind, e.id, e.path);
              && Entries(kind) == old(Entries(kind))[i := SavedEntry(NameFor(kind), e)]
              && status == (if IsEmpty(e.image) then Pass else encode(name, e.image))
              && staging.files == if IsEmpty(e.image) || EncodeFails(NameFor(kind), e, encode) then old(staging.files)
                                  else old(staging.files)[name := e.image]
      ensures kind == Doll ==> fragments == old(fragments)
      ensures kind == Fragment ==> dolls == old(dolls)
    {
      var entry := Entries(kind)[i];
      if IsEmpty(entry.image) {
        status := Pass;
        assert Entries(kind)[i := entry] == Entries(kind);
        return;
      }
      var filename := GeneratedName(kind, entry.id, entry.path);
      SetEntry(kind, i, entry.(path := filename));
      status := staging.SaveBuffer(filename, entry.image, encode);
    }

    /**
     * One save loop: for each entry with a non-empty image, assign its
     * generated name to `path`, then encode its image under that name; return
     * the first encoder error.
     */
    method SavePass(kind: Kind, staging: StagingDir, encode: Encoder) returns (status: Outcome)
      modifies this, staging
      ensures var s := SaveList(NameFor(kind), old(Entries(kind)), old(staging.files), encode);
              Entries(kind) == s.entries && staging.files == s.files && status == s.status
      ensures kind == Doll ==> fragments == old(fragments)
      ensures kind == Fragment ==> dolls == old(dolls)
    {
      ghost var es := Entries(kind);
      ghost var files := staging.files;
      status := Pass;
      var i := 0;
      while i < |Entries(kind)|
        invariant 0 <= i <= |es| == |Entries(kind)|
        invariant Entries(kind) == SaveList(NameFor(kind), es[..i], files, encode).entries + es[i..]
        invariant staging.files == SaveList(NameFor(kind), es[..i], files, encode).files
        invariant status == SaveList(NameFor(kind), es[..i], files, encode).status == Pass
        invariant kind == Doll ==> fragments == old(fragments)
        invariant kind == Fragment ==> dolls == old(dolls)
      {
        ghost var done := SaveList(NameFor(kind), es[..i], files, encode).entries;
        SaveListStep(NameFor(kind), es, i, files, encode);
        SuffixHead(es, i);
        ReplaceAfterPrefix(done, es[i..], SavedEntry(NameFor(kind), es[i]));
        status := SaveEntryAt(kind, i, staging, encode);
        if status.Fail? {
          SaveListStopsAtFailure(NameFor(kind), es[..i + 1], es[i + 1..], files, encode);
          return;
        }
        i := i + 1;
      }
      assert es[..i] == es;
    }

    /** The loops of `save` (dolls, then fragments) over the staging directory. */
    method SaveImages(staging: StagingDir, encode: Encoder) returns (status: Outcome)
      modifies this, staging
      ensures var m := SaveManifest(old(dolls), old(fragments), old(staging.files), encode);
              dolls == m.dolls && fragments == m.fragments && staging.files == m.files && status == m.status
    {
      status := SavePass(Doll, staging, encode);
      if status.Fail? {
        return;
      }
      status := SavePass(Fragment, staging, encode);
    }

    /**
     * One turn of the read loop: skip an empty path; otherwise decode the file
     * it names and replace the image's width, height and pixels.
     */
    method LoadEntryAt(kind: Kind, i: nat, decode: Decoder) returns (status: Outcome)
      requires i < |Entries(kind)|
      modifies this
      ensures var e := old(Entries(kind))[i];
              && status == (if DecodeFails(e, decode) then Fail(decode(e.path).error) else Pass)
              && Entries(kind) == if DecodeFails(e, decode) then old(Entries(kind))
                                  else old(Entries(kind))[i := LoadedEntry(e, decode)]
      ensures kind == Doll ==> fragments == old(fragments)
      ensures kind == Fragment ==> dolls == old(dolls)
    {
      var entry := Entries(kind)[i];
      if entry.path == "" {
        status := Pass;
        assert Entries(kind)[i := entry] == Entries(kind);
        return;
      }
      var decoded := decode(entry.path);
      if decoded.Err? {
        return Fail(decoded.error);
      }
      var image := decoded.value;
      SetEntry(kind, i, entry.(image := Image(image.width, image.height, image.pixels)));
      status := Pass;
    }

    /**
     * One read loop: for each entry with a non-empty path, decode the file it
     * names and replace the image's width, height and pixels; return the
     * first decoder error.
     */
    method LoadPass(kind: Kind, decode: Decoder) returns (status: Outcome)
      modifies this
      ensures var s := LoadList(old(Entries(kind)), decode);
              Entries(kind) == s.entries && status == s.status
      ensures kind == Doll ==> fragments == old(fragments)
      ensures kind == Fragment ==> dolls == old(dolls)
    {
      ghost var es := Entries(kind);
      status := Pass;
      var i := 0;
      while i < |Entries(kind)|
        invariant 0 <= i <= |es| == |Entries(kind)|
        invariant Entries(kind) == LoadList(es[..i], decode).entries + es[i..]
        invariant status == LoadList(es[..i], decode).status == Pass
        invariant kind == Doll ==> fragments == old(fragments)
        invariant kind == Fragment ==> dolls == old(dolls)
      {
        ghost var done := LoadList(es[..i], decode).entries;
        LoadListStep(es, i, decode);
        SuffixHead(es, i);
        if DecodeFails(es[i], decode) {
          ReplaceAfterPrefix(done, es[i..], es[i]);
        } else {
          ReplaceAfterPrefix(done, es[i..], LoadedEntry(es[i], decode));
        }
        status := LoadEntryAt(kind, i, decode);
        if status.Fail? {
          LoadListStopsAtFailure(es[..i + 1], es[i + 1..], decode);
          return;
        }
        i := i + 1;
      }
      assert es[..i] == es;
    }

    /** The loops of `read` (dolls, then fragments) that put decoded images back into the manifest. */
    method InjectImages(decode: Decoder) returns (status: Outcome)
      modifies this
      ensures var m := LoadManifest(old(dolls), old(fragments), decode);
              dolls == m.dolls && fragments == m.fragments && status == m.status
    {
      status := LoadPass(Doll, decode);
      if status.Fail? {
        return;
      }
      status := LoadPass(Fragment, decode);
    }
  }

  /**
   * The image part of `save`: a fresh staging directory, the two save loops,
   * and the image files that go into the archive when they pass.
   */
  method Save(manifest: Manifest, encode: Encoder) returns (status: Outcome, images: map<string, Image>)
    modifies manifest
    ensures var m := SaveManifest(old(manifest.dolls), old(manifest.fragments), map[], encode);
            && manifest.dolls == m.dolls && manifest.fragments == m.fragments && status == m.status
            && images == if status.Pass? then m.files else map[]
  {
    var staging := new StagingDir();
    status := manifest.SaveImages(staging, encode);
    images := if status.Pass? then staging.files else map[];
  }
}
