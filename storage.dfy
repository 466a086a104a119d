/** The part of the file system the core touches: the tracked files (what
    Path.lstat() and Path.exists() report about them) and the JSON sidecars,
    each held as the dictionary json.loads() returns for it. Also the
    environment the core reads outside the file system: the clock and
    mimetypes.guess_type(). */
module Storage {
  import opened Basics

  /** The suffix of every sidecar file name. */
  const SidecarSuffix := ".biji.json"

  /** What lstat() reports about a tracked file: st_size, and st_mtime as
      datetime.fromtimestamp(...).isoformat() renders it. */
  datatype Stat = Stat(size: nat, mtime: IsoTime)

  /** The JSON values a sidecar holds. A JSON array of tags is read as the
      set of its strings. */
  datatype JsonValue = JNull | JInt(i: int) | JStr(s: string) | JArray(items: set<string>)

  /** A decoded sidecar: a JSON object. */
  type Dict = map<string, JsonValue>

  /** The clock reading of one operation and the mimetype guesser. */
  datatype Env = Env(now: IsoTime, guessType: string -> Option<string>)

  /** The files: tracked files by path, and sidecars by their own path. */
  class FileSystem {
    var files: map<string, Stat>
    var sidecars: map<string, Dict>

    ghost predicate Valid()
      reads this
    {
      forall p :: p in sidecars ==> EndsWith(p, SidecarSuffix)
    }

    constructor (files: map<string, Stat>, sidecars: map<string, Dict>)
      requires forall p :: p in sidecars ==> EndsWith(p, SidecarSuffix)
      ensures Valid() && this.files == files && this.sidecars == sidecars
    {
      this.files := files;
      this.sidecars := sidecars;
    }

    /** Path.lstat() of a tracked file. */
    method Lstat(p: string) returns (r: Result<Stat>)
      ensures r == if p in files then Ok(files[p]) else Err(NotFound)
    {
      r := if p in files then Ok(files[p]) else Err(NotFound);
    }

    /** Path.exists() of a tracked file. */
    method FileExists(p: string) returns (b: bool)
      ensures b <==> p in files
    {
      b := p in files;
    }

    /** Path.exists() of a sidecar. */
    method SidecarExists(p: string) returns (b: bool)
      ensures b <==> p in sidecars
    {
      b := p in sidecars;
    }

    /** read_text() followed by json.loads(). */
    method ReadSidecar(p: string) returns (r: Result<Dict>)
      ensures r == if p in sidecars then Ok(sidecars[p]) else Err(NotFound)
    {
      r := if p in sidecars then Ok(sidecars[p]) else Err(NotFound);
    }

    /** write_text() of a serialised dictionary. */
    method WriteSidecar(p: string, d: Dict)
      requires Valid() && EndsWith(p, SidecarSuffix)
      modifies this
      ensures Valid()
      ensures sidecars == old(sidecars)[p := d] && files == old(files)
    {
      sidecars := sidecars[p := d];
    }

    /** Path.unlink() of a sidecar: FileNotFoundError when it is missing. */
    method UnlinkSidecar(p: string) returns (err: Option<Error>)
      requires Valid()
      modifies this
      ensures Valid()
      ensures err == if p in old(sidecars) then None else Some(NotFound)
      ensures sidecars == old(sidecars) - {p} && files == old(files)
    {
      if p !in sidecars {
        return Some(NotFound);
      }
      sidecars := sidecars - {p};
      err := None;
    }

    /** Path('.').glob() over the sidecar names: each sidecar once, in some
        order. */
    method Glob() returns (paths: seq<string>)
      ensures forall p :: p in paths <==> p in sidecars
      ensures forall i, j :: 0 <= i < j < |paths| ==> paths[i] != paths[j]
    {
      paths := [];
      var rest := sidecars.Keys;
      while rest != {}
        invariant rest <= sidecars.Keys
        invariant forall p :: p in paths <==> p in sidecars.Keys - rest
        invariant forall i, j :: 0 <= i < j < |paths| ==> paths[i] != paths[j]
        decreases rest
      {
        var p :| p in rest;
        assert p !in paths;
        paths := paths + [p];
        rest := rest - {p};
      }
    }
  }
}
