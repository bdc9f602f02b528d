/** Moving an uploaded attachment's original into the protected area
    (inc/admin-mime-types.php, `sell_media_move_image_from_attachment`): save
    the IPTC fields as taxonomy terms, create the protected year/month
    directory when it is missing, copy the original there, and copy the
    resized image back over the original's name. */
module ProtectedMedia {
  import opened PhpText

  // ---------------------------------------------------------------------------
  // Paths (lines 79 and 103)
  // ---------------------------------------------------------------------------

  /** Index of the last '/' of `p`, or -1. */
  function LastSlash(p: string): (k: int)
    ensures -1 <= k < |p|
    ensures k >= 0 ==> p[k] == '/'
    ensures forall i :: k < i < |p| ==> p[i] != '/'
  {
    if p == [] then -1
    else if p[|p| - 1] == '/' then |p| - 1
    else LastSlash(p[..|p| - 1])
  }

  /** PHP `dirname` for a path without trailing slashes. */
  function Dirname(p: string): string {
    var k := LastSlash(p);
    if k < 0 then "." else if k == 0 then "/" else p[..k]
  }

  /** PHP `basename` for a path without trailing slashes. */
  function Basename(p: string): string {
    p[LastSlash(p) + 1..]
  }

  /** The uploaded original: upload basedir + '/' + the stored relative path. */
  function OriginalPath(basedir: string, attached: string): string {
    basedir + "/" + attached
  }

  /** Its protected copy: basedir + the protected subdirectory + '/' + the same relative path. */
  function ProtectedPath(basedir: string, protectedDir: string, attached: string): string {
    basedir + protectedDir + "/" + attached
  }

  lemma LastSlashUnique(p: string, k: int)
    requires 0 <= k < |p| && p[k] == '/'
    requires forall i :: k < i < |p| ==> p[i] != '/'
    ensures LastSlash(p) == k
  {
  }

  /** A prefix does not move the last slash of a suffix that has one. */
  lemma LastSlashAfterPrefix(x: string, y: string)
    requires LastSlash(y) >= 0
    ensures LastSlash(x + y) == |x| + LastSlash(y)
  {
    var k := LastSlash(y);
    var p := x + y;
    assert p[|x| + k] == '/';
    forall i | |x| + k < i < |p| ensures p[i] != '/' {
      assert p[i] == y[i - |x|];
    }
    LastSlashUnique(p, |x| + k);
  }

  /** The protected copy mirrors the original: for a stored path with a
      directory part such as `YYYY/MM/file`, the protected directory is the
      original's directory part under the protected subdirectory, and both
      files have the same base name. */
  lemma ProtectedMirrorsOriginal(basedir: string, protectedDir: string, attached: string)
    requires LastSlash(attached) > 0
    ensures Dirname(ProtectedPath(basedir, protectedDir, attached)) == basedir + protectedDir + "/" + Dirname(attached)
    ensures Dirname(OriginalPath(basedir, attached)) == basedir + "/" + Dirname(attached)
    ensures Basename(ProtectedPath(basedir, protectedDir, attached)) == Basename(attached)
    ensures Basename(OriginalPath(basedir, attached)) == Basename(attached)
  {
    PathUnderPrefix(basedir + protectedDir + "/", attached);
    PathUnderPrefix(basedir + "/", attached);
  }

  /** Putting a prefix before a path with a directory part prefixes its
      directory and keeps its base name. */
  lemma PathUnderPrefix(x: string, y: string)
    requires LastSlash(y) > 0
    ensures Dirname(x + y) == x + Dirname(y)
    ensures Basename(x + y) == Basename(y)
  {
    LastSlashAfterPrefix(x, y);
    DirnameUnderPrefix(x, y, LastSlash(y));
    BasenameUnderPrefix(x, y, LastSlash(y));
  }

  lemma DirnameUnderPrefix(x: string, y: string, k: nat)
    requires 0 < k < |y| && LastSlash(y) == k && LastSlash(x + y) == |x| + k
    ensures Dirname(x + y) == x + Dirname(y)
  {
    HeadUnderPrefix(x, y, k);
  }

  lemma BasenameUnderPrefix(x: string, y: string, k: nat)
    requires k < |y| && LastSlash(y) == k && LastSlash(x + y) == |x| + k
    ensures Basename(x + y) == Basename(y)
  {
    TailUnderPrefix(x, y, k);
  }

  lemma HeadUnderPrefix(x: string, y: string, k: nat)
    requires k <= |y|
    ensures (x + y)[..|x| + k] == x + y[..k]
  {
    var p := x + y;
    forall i | 0 <= i < |x| + k ensures p[..|x| + k][i] == (x + y[..k])[i] {
      if i >= |x| {
        assert p[i] == y[i - |x|];
      }
    }
  }

  lemma TailUnderPrefix(x: string, y: string, k: nat)
    requires k < |y|
    ensures (x + y)[|x| + k + 1..] == y[k + 1..]
  {
    var tail := (x + y)[|x| + k + 1..];
    var rest := y[k + 1..];
    forall i | 0 <= i < |rest| ensures tail[i] == rest[i] {
      assert (x + y)[|x| + k + 1 + i] == y[k + 1 + i];
    }
  }

  // ---------------------------------------------------------------------------
  // IPTC gating (lines 82-100)
  // ---------------------------------------------------------------------------

  /** What the IPTC parser returns for one field. */
  datatype IptcValue = Absent | Text(s: string) | Words(words: seq<string>)

  /** PHP truthiness of a parsed value. */
  predicate IptcTruthy(v: IptcValue) {
    match v
    case Absent => false
    case Text(s) => Truthy(s)
    case Words(ws) => ws != []
  }

  datatype IptcFields = IptcFields(city: IptcValue, state: IptcValue, creator: IptcValue, keywords: IptcValue)

  /** The fields in the order they are saved. */
  const IPTC_FIELDS: seq<string> := ["city", "state", "creator", "keywords"]

  function FieldValue(iptc: IptcFields, name: string): IptcValue {
    if name == "city" then iptc.city
    else if name == "state" then iptc.state
    else if name == "creator" then iptc.creator
    else if name == "keywords" then iptc.keywords
    else Absent
  }

  /** The host-visible effects of the relocation, in order. */
  datatype Effect =
    | SaveIptc(field: string, value: IptcValue, attachmentId: int)
    | MakeDir(path: string)
    | Copy(src: string, dst: string)

  /** The saves for the listed fields whose parsed value is truthy, in order. */
  function SavesOf(iptc: IptcFields, attachmentId: int, names: seq<string>): seq<Effect>
    decreases |names|
  {
    if names == [] then []
    else
      var v := FieldValue(iptc, names[0]);
      (if IptcTruthy(v) then [SaveIptc(names[0], v, attachmentId)] else [])
      + SavesOf(iptc, attachmentId, names[1..])
  }

  /** The saves the function performs: none for an empty attachment id. */
  function IptcSaves(iptc: IptcFields, attachmentId: int): seq<Effect> {
    if attachmentId == 0 then [] else SavesOf(iptc, attachmentId, IPTC_FIELDS)
  }

  lemma {:induction false} SavesOfExact(iptc: IptcFields, attachmentId: int, names: seq<string>, e: Effect)
    ensures e in SavesOf(iptc, attachmentId, names) <==>
            exists k :: 0 <= k < |names| && IptcTruthy(FieldValue(iptc, names[k])) &&
                        e == SaveIptc(names[k], FieldValue(iptc, names[k]), attachmentId)
    decreases |names|
  {
    if names != [] {
      SavesOfExact(iptc, attachmentId, names[1..], e);
      if e in SavesOf(iptc, attachmentId, names[1..]) {
        var k :| 0 <= k < |names[1..]| && IptcTruthy(FieldValue(iptc, names[1..][k])) &&
                 e == SaveIptc(names[1..][k], FieldValue(iptc, names[1..][k]), attachmentId);
        assert names[k + 1] == names[1..][k];
      }
      if exists k :: 0 <= k < |names| && IptcTruthy(FieldValue(iptc, names[k])) &&
                     e == SaveIptc(names[k], FieldValue(iptc, names[k]), attachmentId) {
        var k :| 0 <= k < |names| && IptcTruthy(FieldValue(iptc, names[k])) &&
                 e == SaveIptc(names[k], FieldValue(iptc, names[k]), attachmentId);
        if k > 0 {
          assert names[1..][k - 1] == names[k];
        }
      }
    }
  }

  lemma {:induction false} SavesOfAppend(iptc: IptcFields, attachmentId: int, a: seq<string>, b: seq<string>)
    ensures SavesOf(iptc, attachmentId, a + b) == SavesOf(iptc, attachmentId, a) + SavesOf(iptc, attachmentId, b)
    decreases |a|
  {
    if a == [] {
      assert a + b == b;
    } else {
      SavesOfAppend(iptc, attachmentId, a[1..], b);
      var ab := a + b;
      assert ab[0] == a[0];
      assert ab[1..] == a[1..] + b;
      var v := FieldValue(iptc, a[0]);
      var head := if IptcTruthy(v) then [SaveIptc(a[0], v, attachmentId)] else [];
      assert SavesOf(iptc, attachmentId, ab) == head + SavesOf(iptc, attachmentId, ab[1..]);
      assert SavesOf(iptc, attachmentId, a) == head + SavesOf(iptc, attachmentId, a[1..]);
    }
  }

  /** A field is saved, with its parsed value and the attachment id, exactly
      when the attachment id is not empty and the parsed value is truthy. */
  lemma IptcSaveGate(iptc: IptcFields, attachmentId: int, name: string)
    requires name in IPTC_FIELDS
    ensures SaveIptc(name, FieldValue(iptc, name), attachmentId) in IptcSaves(iptc, attachmentId) <==>
            attachmentId != 0 && IptcTruthy(FieldValue(iptc, name))
  {
    var e := SaveIptc(name, FieldValue(iptc, name), attachmentId);
    SavesOfExact(iptc, attachmentId, IPTC_FIELDS, e);
  }

  /** Saves follow the field order: whatever is saved for an earlier field
      precedes whatever is saved for a later one. */
  lemma IptcSaveOrder(iptc: IptcFields, attachmentId: int, k: nat)
    requires attachmentId != 0 && k <= |IPTC_FIELDS|
    ensures IptcSaves(iptc, attachmentId) ==
            SavesOf(iptc, attachmentId, IPTC_FIELDS[..k]) + SavesOf(iptc, attachmentId, IPTC_FIELDS[k..])
  {
    assert IPTC_FIELDS == IPTC_FIELDS[..k] + IPTC_FIELDS[k..];
    SavesOfAppend(iptc, attachmentId, IPTC_FIELDS[..k], IPTC_FIELDS[k..]);
  }

  // ---------------------------------------------------------------------------
  // The effects in order (lines 74-129)
  // ---------------------------------------------------------------------------

  /** Everything the relocation does, given whether the protected directory
      (or a file of that name) already exists. The resized image's path comes
      from the image library. */
  function MoveEffects(basedir: string, protectedDir: string, attached: string, attachmentId: int,
                       iptc: IptcFields, resized: string, dirExists: bool): seq<Effect>
  {
    var original := OriginalPath(basedir, attached);
    var destination := ProtectedPath(basedir, protectedDir, attached);
    IptcSaves(iptc, attachmentId)
    + (if dirExists then [] else [MakeDir(Dirname(destination))])
    + [Copy(original, destination), Copy(resized, Dirname(resized) + "/" + Basename(original))]
  }

  /** A missing protected directory is created, once, before the original is
      copied into it; an existing one is not created again. The original is
      copied to the protected path before the resized image is copied over
      the original's name. */
  lemma MkdirBeforeCopy(basedir: string, protectedDir: string, attached: string, attachmentId: int,
                        iptc: IptcFields, resized: string, dirExists: bool)
    ensures var effects := MoveEffects(basedir, protectedDir, attached, attachmentId, iptc, resized, dirExists);
            var original := OriginalPath(basedir, attached);
            var destination := ProtectedPath(basedir, protectedDir, attached);
            var n := |effects|;
            && n >= 2
            && effects[n - 2] == Copy(original, destination)
            && effects[n - 1].Copy? && effects[n - 1].src == resized
            && (dirExists ==> forall i :: 0 <= i < n ==> !effects[i].MakeDir?)
            && (!dirExists ==> effects[n - 3] == MakeDir(Dirname(destination)) &&
                               forall i :: 0 <= i < n && i != n - 3 ==> !effects[i].MakeDir?)
  {
    var saves := IptcSaves(iptc, attachmentId);
    var made: seq<Effect> := if dirExists then [] else [MakeDir(Dirname(ProtectedPath(basedir, protectedDir, attached)))];
    var copies := [Copy(OriginalPath(basedir, attached), ProtectedPath(basedir, protectedDir, attached)),
                   Copy(resized, Dirname(resized) + "/" + Basename(OriginalPath(basedir, attached)))];
    var effects := MoveEffects(basedir, protectedDir, attached, attachmentId, iptc, resized, dirExists);
    assert effects == saves + made + copies;
    IptcSavesOnly(iptc, attachmentId);
    var n := |effects|;
    assert effects[n - 2] == copies[0] && effects[n - 1] == copies[1];
    forall i | 0 <= i < |saves| ensures effects[i] == saves[i] {
    }
  }

  /** The IPTC step performs nothing but saves. */
  lemma IptcSavesOnly(iptc: IptcFields, attachmentId: int)
    ensures forall i :: 0 <= i < |IptcSaves(iptc, attachmentId)| ==> IptcSaves(iptc, attachmentId)[i].SaveIptc?
  {
    var saves := IptcSaves(iptc, attachmentId);
    forall i | 0 <= i < |saves| ensures saves[i].SaveIptc? {
      SavesOfExact(iptc, attachmentId, IPTC_FIELDS, saves[i]);
    }
  }

  // ---------------------------------------------------------------------------
  // The host: directories, files and the effect log
  // ---------------------------------------------------------------------------

  /** The files after one `@copy( src, dst )`: `dst` takes the content of
      `src` when `src` is a file and `dst`'s directory exists; otherwise the
      copy fails silently. No other path is touched, and `src` stays. */
  function CopyResult(files: map<string, seq<bv8>>, dirs: set<string>, src: string, dst: string)
    : (r: map<string, seq<bv8>>)
    ensures forall p :: p != dst ==> (p in r <==> p in files)
    ensures forall p :: p != dst && p in r ==> r[p] == files[p]
    ensures src in files && Dirname(dst) in dirs ==> dst in r && r[dst] == files[src]
    ensures !(src in files && Dirname(dst) in dirs) ==> r == files
  {
    if src in files && Dirname(dst) in dirs then files[dst := files[src]] else files
  }

  /** The files after the two copies of lines 125 and 128. */
  function RelocatedFiles(files: map<string, seq<bv8>>, dirs: set<string>, original: string,
                          destination: string, resized: string, renamed: string): map<string, seq<bv8>>
  {
    CopyResult(CopyResult(files, dirs, original, destination), dirs, resized, renamed)
  }

  /** The relocation copies, it does not move: every path other than the two
      targets keeps its presence and content, the original upload included. */
  lemma {:induction false} RelocationKeepsOthers(files: map<string, seq<bv8>>, dirs: set<string>, original: string,
                                                 destination: string, resized: string, renamed: string, p: string)
    requires p != destination && p != renamed
    ensures var r := RelocatedFiles(files, dirs, original, destination, resized, renamed);
            (p in r <==> p in files) && (p in r ==> r[p] == files[p])
  {
    var mid := CopyResult(files, dirs, original, destination);
    assert p in mid <==> p in files;
  }

  /** The protected copy holds the original's content whenever the first copy
      can be written and the second copy targets another path; the resized
      image's copy holds the resized content whenever it can be written. */
  lemma {:induction false} RelocationTargets(files: map<string, seq<bv8>>, dirs: set<string>, original: string,
                                             destination: string, resized: string, renamed: string)
    ensures var r := RelocatedFiles(files, dirs, original, destination, resized, renamed);
            original in files && Dirname(destination) in dirs && renamed != destination
            ==> destination in r && r[destination] == files[original]
    ensures var r := RelocatedFiles(files, dirs, original, destination, resized, renamed);
            var mid := CopyResult(files, dirs, original, destination);
            resized in mid && Dirname(renamed) in dirs ==> renamed in r && r[renamed] == mid[resized]
    ensures var r := RelocatedFiles(files, dirs, original, destination, resized, renamed);
            resized in files && resized != destination && Dirname(renamed) in dirs
            ==> renamed in r && r[renamed] == files[resized]
  {
    var mid := CopyResult(files, dirs, original, destination);
    if resized in files && resized != destination {
      assert resized in mid && mid[resized] == files[resized];
    }
  }

  /** The part of the web host the relocation touches: the directories and
      files of the uploads tree, and the log of effects performed. */
  class Host {
    var dirs: set<string>
    var files: map<string, seq<bv8>>
    var log: seq<Effect>

    constructor (dirs0: set<string>, files0: map<string, seq<bv8>>)
      ensures dirs == dirs0 && files == files0 && log == []
    {
      dirs, files, log := dirs0, files0, [];
    }

    /** `file_exists`: a directory or a file of that name. */
    predicate Exists(p: string)
      reads this
    {
      p in dirs || p in files
    }

    /** `wp_mkdir_p`. */
    method MakeDirectory(d: string)
      modifies this
      ensures dirs == old(dirs) + {d} && files == old(files)
      ensures log == old(log) + [MakeDir(d)]
    {
      dirs := dirs + {d};
      log := log + [MakeDir(d)];
    }

    /** `@copy`: succeeds when the source file and the target's directory
        exist; a failure changes nothing and is not reported. */
    method CopyFile(src: string, dst: string)
      modifies this
      ensures dirs == old(dirs)
      ensures files == CopyResult(old(files), old(dirs), src, dst)
      ensures log == old(log) + [Copy(src, dst)]
    {
      if src in files && Dirname(dst) in dirs {
        files := files[dst := files[src]];
      }
      log := log + [Copy(src, dst)];
    }

    /** `sell_media_iptc_save`: assigns terms; no file changes. */
    method SaveIptcField(field: string, value: IptcValue, attachmentId: int)
      modifies this
      ensures dirs == old(dirs) && files == old(files)
      ensures log == old(log) + [SaveIptc(field, value, attachmentId)]
    {
      log := log + [SaveIptc(field, value, attachmentId)];
    }
  }

  /** The relocation as the function performs it, step by step. */
  method MoveImageFromAttachment(host: Host, basedir: string, protectedDir: string, attached: string,
                                 attachmentId: int, iptc: IptcFields, resized: string)
    modifies host
    ensures var destination := ProtectedPath(basedir, protectedDir, attached);
            host.log == old(host.log) + MoveEffects(basedir, protectedDir, attached, attachmentId, iptc,
                                                   resized, old(host.Exists(Dirname(destination))))
    ensures var destination := ProtectedPath(basedir, protectedDir, attached);
            host.dirs == old(host.dirs) + (if old(host.Exists(Dirname(destination))) then {} else {Dirname(destination)})
    ensures var original := OriginalPath(basedir, attached);
            var destination := ProtectedPath(basedir, protectedDir, attached);
            original in old(host.files) && Dirname(destination) !in old(host.files) &&
            Dirname(resized) + "/" + Basename(original) != destination
            ==> destination in host.files && host.files[destination] == old(host.files[original])
    ensures var original := OriginalPath(basedir, attached);
            var destination := ProtectedPath(basedir, protectedDir, attached);
            host.files == RelocatedFiles(old(host.files), host.dirs, original, destination,
                                         resized, Dirname(resized) + "/" + Basename(original))
    ensures var original := OriginalPath(basedir, attached);
            var destination := ProtectedPath(basedir, protectedDir, attached);
            forall p :: p != destination && p != Dirname(resized) + "/" + Basename(original) ==>
              (p in host.files <==> p in old(host.files)) && (p in host.files ==> host.files[p] == old(host.files[p]))
  {
    var original := OriginalPath(basedir, attached);
    var destination := ProtectedPath(basedir, protectedDir, attached);
    var dir := Dirname(destination);
    var renamed := Dirname(resized) + "/" + Basename(original);
    ghost var existed := host.Exists(dir);
    ghost var saves := IptcSaves(iptc, attachmentId);
    ghost var made: seq<Effect> := if existed then [] else [MakeDir(dir)];
    ghost var log0 := host.log;
    SaveIptcFields(host, iptc, attachmentId);
    assert host.Exists(dir) == existed;
    EnsureDirectory(host, dir);
    ghost var log1 := host.log;
    assert log1 == log0 + saves + made;
    assert dir in host.dirs || dir in old(host.files);
    CopyOriginalAndResized(host, original, destination, resized, renamed);
    ghost var copies := [Copy(original, destination), Copy(resized, renamed)];
    assert host.log == log1 + copies;
    assert MoveEffects(basedir, protectedDir, attached, attachmentId, iptc, resized, existed) == saves + made + copies;
    LogAssoc(log0, saves, made, copies);
    RelocationTargets(old(host.files), host.dirs, original, destination, resized, renamed);
    forall p | p != destination && p != renamed
      ensures (p in host.files <==> p in old(host.files)) && (p in host.files ==> host.files[p] == old(host.files[p]))
    {
      RelocationKeepsOthers(old(host.files), host.dirs, original, destination, resized, renamed, p);
    }
  }

  lemma LogAssoc(a: seq<Effect>, b: seq<Effect>, c: seq<Effect>, d: seq<Effect>)
    ensures a + b + c + d == a + (b + c + d)
  {
  }

  /** The two copies of lines 125 and 128 (`@copy` twice). */
  method CopyOriginalAndResized(host: Host, original: string, destination: string, resized: string, renamed: string)
    modifies host
    ensures host.dirs == old(host.dirs)
    ensures host.files == RelocatedFiles(old(host.files), old(host.dirs), original, destination, resized, renamed)
    ensures host.log == old(host.log) + [Copy(original, destination), Copy(resized, renamed)]
  {
    host.CopyFile(original, destination);
    host.CopyFile(resized, renamed);
  }

  /** The existence test and `wp_mkdir_p` of lines 107-109. */
  method EnsureDirectory(host: Host, dir: string)
    modifies host
    ensures host.dirs == old(host.dirs) + (if old(host.Exists(dir)) then {} else {dir})
    ensures host.files == old(host.files)
    ensures host.log == old(host.log) + (if old(host.Exists(dir)) then [] else [MakeDir(dir)])
  {
    if !host.Exists(dir) {
      host.MakeDirectory(dir);
    }
  }

  /** The guarded saves of lines 88-100. */
  method SaveIptcFields(host: Host, iptc: IptcFields, attachmentId: int)
    modifies host
    ensures host.dirs == old(host.dirs) && host.files == old(host.files)
    ensures host.log == old(host.log) + IptcSaves(iptc, attachmentId)
  {
    if attachmentId != 0 {
      ghost var log0 := host.log;
      SaveIfTruthy(host, "city", iptc.city, attachmentId);
      SaveIfTruthy(host, "state", iptc.state, attachmentId);
      SaveIfTruthy(host, "creator", iptc.creator, attachmentId);
      SaveIfTruthy(host, "keywords", iptc.keywords, attachmentId);
      UnfoldSaves(iptc, attachmentId);
      LogAssoc(log0 + Gated("city", iptc.city, attachmentId), Gated("state", iptc.state, attachmentId),
               Gated("creator", iptc.creator, attachmentId), Gated("keywords", iptc.keywords, attachmentId));
      LogAssoc(log0, Gated("city", iptc.city, attachmentId), Gated("state", iptc.state, attachmentId),
               Gated("creator", iptc.creator, attachmentId) + Gated("keywords", iptc.keywords, attachmentId));
    }
  }

  /** One `if ( $value ) sell_media_iptc_save( ... )` step. */
  method SaveIfTruthy(host: Host, field: string, value: IptcValue, attachmentId: int)
    modifies host
    ensures host.dirs == old(host.dirs) && host.files == old(host.files)
    ensures host.log == old(host.log) + Gated(field, value, attachmentId)
  {
    if IptcTruthy(value) {
      host.SaveIptcField(field, value, attachmentId);
    }
  }

  /** The save one field contributes on its own. */
  function Gated(field: string, value: IptcValue, attachmentId: int): seq<Effect> {
    if IptcTruthy(value) then [SaveIptc(field, value, attachmentId)] else []
  }

  /** The four guarded saves, written out. */
  lemma UnfoldSaves(iptc: IptcFields, attachmentId: int)
    requires attachmentId != 0
    ensures IptcSaves(iptc, attachmentId) ==
            Gated("city", iptc.city, attachmentId) + Gated("state", iptc.state, attachmentId)
            + Gated("creator", iptc.creator, attachmentId) + Gated("keywords", iptc.keywords, attachmentId)
  {
    var f := IPTC_FIELDS;
    assert f[1..] == ["state", "creator", "keywords"];
    assert f[1..][1..] == ["creator", "keywords"];
    assert f[1..][1..][1..] == ["keywords"];
    assert f[1..][1..][1..][1..] == [];
  }
}
