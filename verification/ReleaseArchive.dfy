/** Release packs: writing the frozen inputs of one pack into an archive and unpacking an
    archive on a runner. Hashing and the tar/gzip encoding are parameters; the runner's
    output directory is a map from paths to contents. */
module ReleaseArchive {
  import opened Wrappers
  import opened ReleaseText

  const SIZE_LIMIT: nat := 128 * 1024 * 1024
  const SUMS: string := "SHA256SUMS"
  const PINS_ENV: string := "pins.env"

  datatype MemberKind = Regular | Directory | Special

  datatype Member = Member(name: string, kind: MemberKind, data: Content)

  datatype Tools = Tools(
    sha256: Content -> string,
    encode: seq<Member> -> Content,
    decode: Content -> Option<seq<Member>>)

  /** Digests are 64 hex digits and an archive reads back as it was written. */
  ghost predicate ToolsOk(tools: Tools) {
    && (forall data :: Hex(tools.sha256(data), 64))
    && (forall members :: tools.decode(tools.encode(members)) == Some(members))
  }

  /** One pack: its directory in the archive, its files in order, and its pins with their widths. */
  datatype Pack = Pack(root: string, files: seq<string>, pins: map<string, nat>)

  function PathIn(pack: Pack, name: string): string {
    pack.root + "/" + name
  }

  /** The members of the archive, in order. */
  function Names(pack: Pack): seq<string> {
    pack.files + [SUMS]
  }

  // ------------------------------------------------------------------ well-formed

  predicate IsParent(path: string, dir: string) {
    |dir| < |path| && path[|dir|] == '/' && path[..|dir|] == dir
  }

  ghost predicate Plain(name: string) {
    name != "" && Ascii(name) && Unbroken(name)
  }

  ghost predicate Distinct(files: seq<string>) {
    forall i, j :: 0 <= i < j < |files| ==> files[i] != files[j]
  }

  /** What the file tables guarantee. */
  ghost predicate GoodPack(pack: Pack) {
    && (forall name :: name in pack.files ==> Plain(name))
    && Distinct(pack.files) && SUMS !in pack.files && PINS_ENV in pack.files
    && '/' !in pack.root
    && (forall a, b :: a in Names(pack) && b in Names(pack) ==> !IsParent(b, a))
  }

  predicate Required(pack: Pack, path: string) {
    exists name :: name in Names(pack) && path == PathIn(pack, name)
  }

  /** A directory above one of the required files. */
  predicate RequiredDirectory(pack: Pack, dir: string) {
    exists name :: name in Names(pack) && IsParent(PathIn(pack, name), dir)
  }

  // -------------------------------------------------------------------- extraction

  predicate MemberOk(pack: Pack, m: Member) {
    || (m.kind == Directory && RequiredDirectory(pack, m.name))
    || (m.kind == Regular && Required(pack, m.name) && m.data != "")
  }

  /** Directory members are skipped before they are counted. */
  function Size(members: seq<Member>): nat {
    if members == [] then 0
    else
      var last := members[|members| - 1];
      Size(members[..|members| - 1]) + if last.kind == Directory then 0 else |last.data|
  }

  /** Everything the archive would write, one file after the other. */
  ghost function Payload(members: seq<Member>): Content {
    if members == [] then ""
    else (if members[0].kind == Directory then "" else members[0].data) + Payload(members[1..])
  }

  lemma {:induction false} SizeIsPayload(members: seq<Member>, n: nat)
    requires n <= |members|
    ensures |Payload(members)| == Size(members[..n]) + |Payload(members[n..])|
  {
    if n > 0 {
      SizeIsPayload(members, n - 1);
      SizeStep(members, n - 1);
      assert members[n - 1..][1..] == members[n..];
    } else {
      assert members[..0] == [] && members[0..] == members;
    }
  }

  ghost predicate NoRepeat(members: seq<Member>) {
    forall i, j :: 0 <= i < j < |members| ==> members[i].name != members[j].name
  }

  ghost predicate Holds(members: seq<Member>, path: string) {
    exists i :: 0 <= i < |members| && members[i].name == path
  }

  ghost predicate MembersOk(pack: Pack, members: seq<Member>) {
    && NoRepeat(members)
    && (forall i :: 0 <= i < |members| ==> MemberOk(pack, members[i]))
    && Size(members) <= SIZE_LIMIT
    && (forall path :: Required(pack, path) <==> Holds(members, path) && !RequiredDirectory(pack, path))
  }

  /** The files an archive unpacks to. */
  function Unpacked(members: seq<Member>): map<string, Content> {
    if members == [] then map[]
    else
      var last := members[|members| - 1];
      var before := Unpacked(members[..|members| - 1]);
      if last.kind == Directory then before else before[last.name := last.data]
  }

  /** The manifest lists exactly the release files, each under the digest of what is there, and the pins are valid. */
  ghost predicate ManifestOk(tools: Tools, pack: Pack, tree: map<string, Content>) {
    && PathIn(pack, SUMS) in tree && Ascii(tree[PathIn(pack, SUMS)])
    && EntriesOk((set name | name in pack.files), SplitLines(tree[PathIn(pack, SUMS)]))
    && (forall name :: name in pack.files ==>
                         && PathIn(pack, name) in tree
                         && Lists(SplitLines(tree[PathIn(pack, SUMS)]), name, tools.sha256(tree[PathIn(pack, name)])))
    && PathIn(pack, PINS_ENV) in tree && Ascii(tree[PathIn(pack, PINS_ENV)])
    && PinsOk(pack.pins, SplitLines(tree[PathIn(pack, PINS_ENV)]))
  }

  predicate Under(root: string, path: string) {
    path == root || root + "/" <= path
  }

  /** A path lies below a directory exactly if it continues it behind a slash. */
  lemma {:induction false} PathsBelow(dir: string, path: string)
    ensures IsParent(path, dir) <==> exists rest: string :: path == dir + "/" + rest
    ensures Under(dir, path) <==> path == dir || exists rest: string :: path == dir + "/" + rest
  {
    if |dir| < |path| {
      assert path == path[..|dir|] + [path[|dir|]] + path[|dir| + 1..];
    }
    if rest: string :| path == dir + "/" + rest {
      assert path[..|dir|] == dir && path[|dir|] == '/';
      assert dir + "/" <= path;
    }
    if dir + "/" <= path {
      assert path == dir + "/" + path[|dir| + 1..];
    }
  }

  ghost predicate Taken(disk: map<string, Content>, root: string) {
    exists path :: path in disk && Under(root, path)
  }

  ghost predicate Extractable(tools: Tools, pack: Pack, archive: Content, sha256: string, disk: map<string, Content>) {
    && Hex(sha256, 64) && tools.sha256(archive) == sha256
    && !Taken(disk, pack.root)
    && tools.decode(archive).Some?
    && MembersOk(pack, tools.decode(archive).value)
    && ManifestOk(tools, pack, Unpacked(tools.decode(archive).value))
  }

  lemma {:induction false} ListsUnique(files: set<string>, lines: seq<string>, name: string, a: string, b: string)
    requires Clean(files, lines) && Lists(lines, name, a) && Lists(lines, name, b)
    ensures a == b
  {
    hide ParseEntry, EntryName;
    var i :| 0 <= i < |lines| && ParseEntry(lines[i]) == Some((name, a));
    var j :| 0 <= j < |lines| && ParseEntry(lines[j]) == Some((name, b));
    NameOfEntry(lines[i]);
    NameOfEntry(lines[j]);
  }

  method VerifyManifest(tools: Tools, pack: Pack, tree: map<string, Content>) returns (ok: bool)
    ensures ok <==> ManifestOk(tools, pack, tree)
  {
    hide SplitLines, Lists, Clean, Named, PinsOk, PathIn, Ascii;
    if PathIn(pack, SUMS) !in tree {
      return false;
    }
    var files := set name | name in pack.files;
    var text := tree[PathIn(pack, SUMS)];
    var entries := ReadEntries(text, files);
    if entries.None? {
      return false;
    }
    for n := 0 to |pack.files|
      invariant forall i :: 0 <= i < n ==>
                  && PathIn(pack, pack.files[i]) in tree
                  && Lists(SplitLines(text), pack.files[i], tools.sha256(tree[PathIn(pack, pack.files[i])]))
    {
      var name := pack.files[n];
      assert name in files;
      if PathIn(pack, name) !in tree {
        return false;
      }
      var digest := tools.sha256(tree[PathIn(pack, name)]);
      if digest != entries.value[name] {
        DigestDiffers(files, SplitLines(text), name, entries.value[name], digest);
        return false;
      }
    }
    if PathIn(pack, PINS_ENV) !in tree {
      return false;
    }
    ok := ValidatePins(tree[PathIn(pack, PINS_ENV)], pack.pins);
  }

  lemma {:induction false} DigestDiffers(files: set<string>, lines: seq<string>, name: string, listed: string,
                                         actual: string)
    requires Clean(files, lines) && Lists(lines, name, listed) && listed != actual
    ensures !Lists(lines, name, actual)
  {
    hide Clean, Lists;
    if Lists(lines, name, actual) { ListsUnique(files, lines, name, listed, actual); }
  }

  lemma {:induction false} SizeStep(members: seq<Member>, n: nat)
    requires n < |members|
    ensures Size(members[..n + 1]) == Size(members[..n]) + if members[n].kind == Directory then 0 else |members[n].data|
  {
    assert members[..n + 1][..n] == members[..n] && members[..n + 1][n] == members[n];
  }

  lemma {:induction false} SizeGrows(members: seq<Member>, n: nat)
    requires n <= |members|
    ensures Size(members[..n]) <= Size(members)
    decreases |members| - n
  {
    if n == |members| {
      assert members[..n] == members;
    } else {
      SizeStep(members, n);
      SizeGrows(members, n + 1);
    }
  }

  /** The first repeated, unexpected, empty or oversized member stops the scan. */
  method CheckMembers(pack: Pack, members: seq<Member>) returns (ok: bool)
    ensures ok <==> MembersOk(pack, members)
  {
    hide Size, Required, RequiredDirectory;
    var seen: set<string> := {};
    var total: nat := 0;
    NoMembers();
    assert members[..0] == [];
    for n := 0 to |members|
      invariant forall path :: path in seen <==> exists i :: 0 <= i < n && members[i].name == path
      invariant forall i, j :: 0 <= i < j < n ==> members[i].name != members[j].name
      invariant forall i :: 0 <= i < n ==> MemberOk(pack, members[i])
      invariant total == Size(members[..n]) <= SIZE_LIMIT
    {
      var member := members[n];
      SizeStep(members, n);
      SizeGrows(members, n + 1);
      if member.name in seen {
        return false;
      }
      seen := seen + {member.name};
      if member.kind == Directory && RequiredDirectory(pack, member.name) {
        continue;
      }
      if member.kind != Regular || !Required(pack, member.name) || |member.data| <= 0 {
        assert !MemberOk(pack, members[n]);
        return false;
      }
      total := total + |member.data|;
      if total > SIZE_LIMIT {
        return false;
      }
    }
    assert members[..|members|] == members;
    assert forall path :: path in seen <==> Holds(members, path);
    ok := Complete(pack, seen);
    CompleteMeans(pack, seen);
  }

  lemma {:induction false} NoMembers()
    ensures Size([]) == 0
  {
  }

  /** What was seen, directories aside, is what is required. */
  predicate Complete(pack: Pack, seen: set<string>) {
    (set path | path in seen && !RequiredDirectory(pack, path))
      == (set name | name in Names(pack) :: PathIn(pack, name))
  }

  lemma {:induction false} CompleteMeans(pack: Pack, seen: set<string>)
    ensures Complete(pack, seen)
            <==> forall path :: Required(pack, path) <==> path in seen && !RequiredDirectory(pack, path)
  {
    hide RequiredDirectory, PathIn, Names;
    var left := set path | path in seen && !RequiredDirectory(pack, path);
    var right := set name | name in Names(pack) :: PathIn(pack, name);
    assert forall path :: path in right <==> Required(pack, path);
    if Complete(pack, seen) {
      forall path ensures Required(pack, path) <==> path in seen && !RequiredDirectory(pack, path) {
        assert path in left <==> path in right;
      }
    }
    if forall path :: Required(pack, path) <==> path in seen && !RequiredDirectory(pack, path) {
      assert left == right;
    }
  }

  // --------------------------------------------------------------------- the runner

  class Runner {
    var disk: map<string, Content>

    constructor (disk: map<string, Content>)
      ensures this.disk == disk
    {
      this.disk := disk;
    }

    /** Copy every file member to its place. */
    method Unpack(members: seq<Member>)
      modifies this
      ensures disk == old(disk) + Unpacked(members)
    {
      hide Unpacked;
      UnpackedNothing();
      assert members[..0] == [];
      for n := 0 to |members|
        invariant disk == old(disk) + Unpacked(members[..n])
      {
        UnpackedStep(members, n);
        if members[n].kind != Directory {
          disk := disk[members[n].name := members[n].data];
        }
      }
      assert members[..|members|] == members;
    }

    /** Unpacks exactly the extractable archives; a failed extraction leaves the directory as it was. */
    method Extract(tools: Tools, pack: Pack, archive: Content, sha256: string) returns (ok: bool)
      modifies this
      ensures ok <==> Extractable(tools, pack, archive, sha256, old(disk))
      ensures ok ==> disk == old(disk) + Unpacked(tools.decode(archive).value)
      ensures !ok ==> disk == old(disk)
    {
      hide MembersOk, ManifestOk, Unpacked, Hex, Under;
      if !Hex(sha256, 64) || tools.sha256(archive) != sha256 {
        return false;
      }
      if exists path :: path in disk && Under(pack.root, path) {
        return false;
      }
      var decoded := tools.decode(archive);
      if decoded.None? {
        return false;
      }
      var members := decoded.value;
      var expected := CheckMembers(pack, members);
      if !expected {
        return false;
      }
      Unpack(members);
      UnpackedUnder(pack, members);
      ghost var kept := Kept(disk, pack.root);
      assert kept == old(disk);
      var tree := map path | path in disk && Under(pack.root, path) :: disk[path];
      assert tree == Unpacked(members);
      ok := VerifyManifest(tools, pack, tree);
      if !ok {
        disk := Kept(disk, pack.root);
      }
    }
  }

  /** What remains when that directory is removed. */
  function Kept(disk: map<string, Content>, root: string): map<string, Content> {
    map path | path in disk && !Under(root, path) :: disk[path]
  }

  lemma {:induction false} UnpackedNothing()
    ensures Unpacked([]) == map[]
  {
  }

  lemma {:induction false} UnpackedStep(members: seq<Member>, n: nat)
    requires n < |members|
    ensures Unpacked(members[..n + 1]) ==
            if members[n].kind == Directory then Unpacked(members[..n])
            else Unpacked(members[..n])[members[n].name := members[n].data]
  {
    assert members[..n + 1][..n] == members[..n] && members[..n + 1][n] == members[n];
  }

  lemma {:induction false} UnpackedKeys(members: seq<Member>)
    ensures forall path :: path in Unpacked(members) ==>
              exists i :: 0 <= i < |members| && members[i].name == path && members[i].kind != Directory
  {
    if members != [] {
      var n := |members| - 1;
      UnpackedKeys(members[..n]);
      forall path | path in Unpacked(members)
        ensures exists i :: 0 <= i < |members| && members[i].name == path && members[i].kind != Directory {
        if path in Unpacked(members[..n]) {
          var i :| 0 <= i < n && members[..n][i].name == path && members[..n][i].kind != Directory;
          assert members[i] == members[..n][i];
        } else {
          assert members[n].name == path;
        }
      }
    }
  }

  /** Everything an accepted archive unpacks lies in the root directory of the archive. */
  lemma {:induction false} UnpackedUnder(pack: Pack, members: seq<Member>)
    requires MembersOk(pack, members)
    ensures forall path :: path in Unpacked(members) ==> Under(pack.root, path)
  {
    hide Unpacked, Size, RequiredDirectory;
    UnpackedKeys(members);
    forall path | path in Unpacked(members) ensures Under(pack.root, path) {
      var i :| 0 <= i < |members| && members[i].name == path && members[i].kind != Directory;
      assert MemberOk(pack, members[i]);
      var name :| name in Names(pack) && path == PathIn(pack, name);
    }
  }

  // ------------------------------------------------------------------------ writing

  ghost predicate SourcesOk(pack: Pack, sources: map<string, Content>) {
    && sources.Keys == (set name | name in pack.files)
    && (forall name :: name in sources ==> sources[name] != "")
    && PINS_ENV in sources && Ascii(sources[PINS_ENV]) && PinsOk(pack.pins, SplitLines(sources[PINS_ENV]))
  }

  function ManifestLines(tools: Tools, files: seq<string>, sources: map<string, Content>): (lines: seq<string>)
    requires forall name :: name in files ==> name in sources
    ensures |lines| == |files|
    ensures forall i :: 0 <= i < |lines| ==> lines[i] == EntryLine(files[i], tools.sha256(sources[files[i]]))
  {
    if files == [] then []
    else
      assert forall name :: name in files[1..] ==> name in files;
      [EntryLine(files[0], tools.sha256(sources[files[0]]))] + ManifestLines(tools, files[1..], sources)
  }

  function Manifest(tools: Tools, pack: Pack, sources: map<string, Content>): Content
    requires forall name :: name in pack.files ==> name in sources
  {
    JoinLines(ManifestLines(tools, pack.files, sources))
  }

  function FileMembers(pack: Pack, sources: map<string, Content>, n: nat): (members: seq<Member>)
    requires n <= |pack.files| && forall name :: name in pack.files ==> name in sources
    ensures |members| == n
    ensures forall i :: 0 <= i < n ==>
              members[i] == Member(PathIn(pack, pack.files[i]), Regular, sources[pack.files[i]])
  {
    if n == 0 then []
    else
      FileMembers(pack, sources, n - 1) + [Member(PathIn(pack, pack.files[n - 1]), Regular, sources[pack.files[n - 1]])]
  }

  function WrittenMembers(tools: Tools, pack: Pack, sources: map<string, Content>): (members: seq<Member>)
    requires forall name :: name in pack.files ==> name in sources
    ensures |members| == |pack.files| + 1
  {
    FileMembers(pack, sources, |pack.files|) + [Member(PathIn(pack, SUMS), Regular, Manifest(tools, pack, sources))]
  }

  /** Refuses wrong, empty or badly pinned sources; otherwise the files in order, then the manifest. */
  method WriteArchive(tools: Tools, pack: Pack, sources: map<string, Content>) returns (archive: Option<Content>)
    requires PINS_ENV in pack.files
    ensures archive.Some? <==> SourcesOk(pack, sources)
    ensures archive.Some? ==> archive.value == tools.encode(WrittenMembers(tools, pack, sources))
  {
    hide SplitLines, PinsOk, PathIn, Ascii, Manifest, FileMembers;
    var files := set name | name in pack.files;
    if sources.Keys != files {
      return None;
    }
    if exists name :: name in sources.Keys && sources[name] == "" {
      return None;
    }
    assert PINS_ENV in sources.Keys;
    var pinned := ValidatePins(sources[PINS_ENV], pack.pins);
    if !pinned {
      return None;
    }
    assert forall name :: name in pack.files ==> name in sources.Keys;
    var members := AddFiles(pack, sources);
    var manifest := WriteManifest(tools, pack, sources);
    members := members + [Member(PathIn(pack, SUMS), Regular, manifest)];
    return Some(tools.encode(members));
  }

  method WriteManifest(tools: Tools, pack: Pack, sources: map<string, Content>) returns (manifest: Content)
    requires forall name :: name in pack.files ==> name in sources
    ensures manifest == Manifest(tools, pack, sources)
  {
    hide JoinLines;
    var lines: seq<string> := [];
    for i := 0 to |pack.files|
      invariant lines == ManifestLines(tools, pack.files, sources)[..i]
    {
      lines := lines + [EntryLine(pack.files[i], tools.sha256(sources[pack.files[i]]))];
    }
    assert lines == ManifestLines(tools, pack.files, sources);
    manifest := JoinLines(lines);
  }

  method AddFiles(pack: Pack, sources: map<string, Content>) returns (members: seq<Member>)
    requires forall name :: name in pack.files ==> name in sources
    ensures members == FileMembers(pack, sources, |pack.files|)
  {
    hide PathIn;
    members := [];
    for i := 0 to |pack.files|
      invariant members == FileMembers(pack, sources, i)
    {
      members := members + [Member(PathIn(pack, pack.files[i]), Regular, sources[pack.files[i]])];
    }
  }

  // ------------------------------------------------------- written, then extracted

  lemma {:induction false} PathInjective(pack: Pack, a: string, b: string)
    ensures PathIn(pack, a) == PathIn(pack, b) <==> a == b
  {
    var n := |pack.root| + 1;
    assert PathIn(pack, a)[n..] == a && PathIn(pack, b)[n..] == b;
  }

  lemma {:induction false} ParentInside(pack: Pack, b: string, a: string)
    requires IsParent(PathIn(pack, b), PathIn(pack, a))
    ensures IsParent(b, a)
  {
    var n := |pack.root| + 1;
    var pa, pb := PathIn(pack, a), PathIn(pack, b);
    assert pa[n..] == a && pb[n..] == b;
    assert b[|a|] == pb[n + |a|];
    assert b[..|a|] == pb[..|pa|][n..];
  }

  lemma {:induction false} RequiredIsNoDirectory(pack: Pack, name: string)
    requires GoodPack(pack) && name in Names(pack)
    ensures Required(pack, PathIn(pack, name)) && !RequiredDirectory(pack, PathIn(pack, name))
  {
    hide PathIn, IsParent;
    forall other | other in Names(pack) ensures !IsParent(PathIn(pack, other), PathIn(pack, name)) {
      if IsParent(PathIn(pack, other), PathIn(pack, name)) { ParentInside(pack, other, name); }
    }
  }

  lemma {:induction false} WrittenNames(tools: Tools, pack: Pack, sources: map<string, Content>, i: nat)
    requires (forall name :: name in pack.files ==> name in sources) && i <= |pack.files|
    ensures WrittenMembers(tools, pack, sources)[i].name == PathIn(pack, Names(pack)[i])
    ensures WrittenMembers(tools, pack, sources)[i].kind == Regular
  {
    hide PathIn, Manifest;
  }

  lemma {:induction false} WrittenNoRepeat(tools: Tools, pack: Pack, sources: map<string, Content>)
    requires GoodPack(pack) && forall name :: name in pack.files ==> name in sources
    ensures NoRepeat(WrittenMembers(tools, pack, sources))
  {
    hide PathIn, Manifest, IsParent, WrittenMembers, Plain;
    var members := WrittenMembers(tools, pack, sources);
    forall i, j | 0 <= i < j < |members| ensures members[i].name != members[j].name {
      WrittenNames(tools, pack, sources, i);
      WrittenNames(tools, pack, sources, j);
      PathInjective(pack, Names(pack)[i], Names(pack)[j]);
      assert Names(pack)[i] == pack.files[i];
    }
  }

  lemma {:induction false} JoinedNonEmpty(lines: seq<string>)
    requires lines != []
    ensures JoinLines(lines) != ""
  {
  }

  lemma {:induction false} WrittenData(tools: Tools, pack: Pack, sources: map<string, Content>, i: nat)
    requires SourcesOk(pack, sources) && (forall name :: name in pack.files ==> name in sources) && pack.files != []
    requires i <= |pack.files|
    ensures WrittenMembers(tools, pack, sources)[i].data != ""
  {
    hide PathIn, JoinLines, PinsOk, SplitLines;
    JoinedNonEmpty(ManifestLines(tools, pack.files, sources));
  }

  lemma {:induction false} WrittenMembersOk(tools: Tools, pack: Pack, sources: map<string, Content>)
    requires GoodPack(pack) && SourcesOk(pack, sources) && forall name :: name in pack.files ==> name in sources
    ensures MembersOk(pack, WrittenMembers(tools, pack, sources))
            <==> Size(WrittenMembers(tools, pack, sources)) <= SIZE_LIMIT
  {
    hide Size, Required, RequiredDirectory, PathIn, WrittenMembers, SourcesOk, GoodPack;
    var members := WrittenMembers(tools, pack, sources);
    GoodPackBasics(pack);
    WrittenNoRepeat(tools, pack, sources);
    forall i | 0 <= i < |members| ensures MemberOk(pack, members[i]) {
      WrittenNames(tools, pack, sources, i);
      WrittenData(tools, pack, sources, i);
      assert Names(pack)[i] in Names(pack);
      RequiredIsNoDirectory(pack, Names(pack)[i]);
    }
    forall path ensures Required(pack, path) <==> Holds(members, path) && !RequiredDirectory(pack, path) {
      WrittenHolds(tools, pack, sources, path);
    }
  }

  lemma {:induction false} GoodPackBasics(pack: Pack)
    requires GoodPack(pack)
    ensures pack.files != []
  {
    hide IsParent, Plain;
  }

  lemma {:induction false} WrittenHolds(tools: Tools, pack: Pack, sources: map<string, Content>, path: string)
    requires GoodPack(pack) && forall name :: name in pack.files ==> name in sources
    ensures Required(pack, path)
            <==> Holds(WrittenMembers(tools, pack, sources), path) && !RequiredDirectory(pack, path)
  {
    hide RequiredDirectory, PathIn, WrittenMembers, GoodPack, Names;
    var members := WrittenMembers(tools, pack, sources);
    if Required(pack, path) {
      var name :| name in Names(pack) && path == PathIn(pack, name);
      RequiredIsNoDirectory(pack, name);
      var i :| 0 <= i < |Names(pack)| && Names(pack)[i] == name;
      NamesLength(pack);
      WrittenNames(tools, pack, sources, i);
    }
    if Holds(members, path) {
      var i :| 0 <= i < |members| && members[i].name == path;
      NamesLength(pack);
      WrittenNames(tools, pack, sources, i);
      assert Names(pack)[i] in Names(pack);
    }
  }

  lemma {:induction false} NamesLength(pack: Pack)
    ensures |Names(pack)| == |pack.files| + 1
  {
  }

  // ------------------------------------------------------------------ the manifest

  lemma {:induction false} EntryUnbroken(name: string, digest: string)
    requires Plain(name) && Hex(digest, 64)
    ensures Unbroken(EntryLine(name, digest)) && Ascii(EntryLine(name, digest))
  {
    var line := EntryLine(name, digest);
    forall c | c in line ensures !Break(c) && c as int < 128 {
      assert c in digest || c in "  " || c in name;
    }
  }

  lemma {:induction false} JoinedAscii(lines: seq<string>)
    requires forall i :: 0 <= i < |lines| ==> Ascii(lines[i])
    ensures Ascii(JoinLines(lines))
  {
    if lines != [] {
      JoinedAscii(lines[1..]);
      var s := JoinLines(lines);
      forall c | c in s ensures c as int < 128 {
        assert c in lines[0] || c in "\n" || c in JoinLines(lines[1..]);
      }
    }
  }

  lemma {:induction false} ManifestReads(tools: Tools, pack: Pack, sources: map<string, Content>)
    requires ToolsOk(tools) && GoodPack(pack) && forall name :: name in pack.files ==> name in sources
    ensures Ascii(Manifest(tools, pack, sources))
    ensures SplitLines(Manifest(tools, pack, sources)) == ManifestLines(tools, pack.files, sources)
  {
    hide JoinLines, SplitLines, EntryLine, Plain, Hex, Ascii, Unbroken, IsParent;
    var lines := ManifestLines(tools, pack.files, sources);
    forall i | 0 <= i < |lines| ensures Unbroken(lines[i]) && Ascii(lines[i]) {
      assert pack.files[i] in pack.files;
      EntryUnbroken(pack.files[i], tools.sha256(sources[pack.files[i]]));
    }
    JoinedAscii(lines);
    SplitJoined(lines);
  }

  lemma {:induction false} LineReads(tools: Tools, pack: Pack, sources: map<string, Content>, i: nat)
    requires ToolsOk(tools) && GoodPack(pack) && (forall name :: name in pack.files ==> name in sources)
    requires i < |pack.files|
    ensures var name := pack.files[i];
            ParseEntry(ManifestLines(tools, pack.files, sources)[i]) == Some((name, tools.sha256(sources[name])))
    ensures EntryName(ManifestLines(tools, pack.files, sources)[i]) == Some(pack.files[i])
  {
    hide ParseEntry, EntryName, EntryLine, Hex, IsParent;
    var name := pack.files[i];
    assert Plain(name);
    EntryRoundTrip(name, tools.sha256(sources[name]));
    NameOfEntry(ManifestLines(tools, pack.files, sources)[i]);
  }

  lemma {:induction false} EntriesOfFiles(files: seq<string>, lines: seq<string>)
    requires |lines| == |files| && Distinct(files)
    requires forall i :: 0 <= i < |lines| ==> EntryName(lines[i]) == Some(files[i])
    ensures EntriesOk((set name | name in files), lines)
  {
    hide EntryName;
    forall name | name in files ensures Named(lines, name) {
      var i :| 0 <= i < |files| && files[i] == name;
      assert EntryName(lines[i]) == Some(name);
    }
  }

  lemma {:induction false} ManifestEntries(tools: Tools, pack: Pack, sources: map<string, Content>)
    requires ToolsOk(tools) && GoodPack(pack) && forall name :: name in pack.files ==> name in sources
    ensures var lines := ManifestLines(tools, pack.files, sources);
            && EntriesOk((set name | name in pack.files), lines)
            && forall name :: name in pack.files ==> Lists(lines, name, tools.sha256(sources[name]))
  {
    hide ParseEntry, EntryName, EntryLine, ToolsOk, Plain, IsParent, EntriesOk, Names;
    var lines := ManifestLines(tools, pack.files, sources);
    forall i | 0 <= i < |lines| ensures EntryName(lines[i]) == Some(pack.files[i]) {
      LineReads(tools, pack, sources, i);
    }
    EntriesOfFiles(pack.files, lines);
    hide GoodPack, Distinct, ManifestLines;
    forall name | name in pack.files ensures Lists(lines, name, tools.sha256(sources[name])) {
      var i :| 0 <= i < |pack.files| && pack.files[i] == name;
      LineReads(tools, pack, sources, i);
    }
  }

  // -------------------------------------------------------------------- round trip

  lemma {:induction false} UnpackedAt(members: seq<Member>, i: nat)
    requires NoRepeat(members) && i < |members| && members[i].kind != Directory
    ensures members[i].name in Unpacked(members) && Unpacked(members)[members[i].name] == members[i].data
    decreases |members|
  {
    var n := |members| - 1;
    if i < n {
      assert members[i].name != members[n].name;
      UnpackedAt(members[..n], i);
    }
  }

  lemma {:induction false} WrittenUnpacks(tools: Tools, pack: Pack, sources: map<string, Content>, i: nat)
    requires GoodPack(pack) && (forall name :: name in pack.files ==> name in sources) && i <= |pack.files|
    ensures var tree := Unpacked(WrittenMembers(tools, pack, sources));
            var path := PathIn(pack, Names(pack)[i]);
            && path in tree
            && tree[path] == if i < |pack.files| then sources[pack.files[i]] else Manifest(tools, pack, sources)
  {
    hide Unpacked, PathIn, Manifest, GoodPack, NoRepeat;
    WrittenNoRepeat(tools, pack, sources);
    WrittenNames(tools, pack, sources, i);
    UnpackedAt(WrittenMembers(tools, pack, sources), i);
  }

  /** Every source is in the tree byte for byte. */
  ghost predicate Reproduces(pack: Pack, sources: map<string, Content>, tree: map<string, Content>) {
    forall name :: name in pack.files ==>
      name in sources && PathIn(pack, name) in tree && tree[PathIn(pack, name)] == sources[name]
  }

  lemma {:induction false} SourcesReproduced(tools: Tools, pack: Pack, sources: map<string, Content>)
    requires GoodPack(pack) && forall name :: name in pack.files ==> name in sources
    ensures var tree := Unpacked(WrittenMembers(tools, pack, sources));
            && PathIn(pack, SUMS) in tree && tree[PathIn(pack, SUMS)] == Manifest(tools, pack, sources)
            && Reproduces(pack, sources, tree)
  {
    hide Unpacked, PathIn, Manifest, GoodPack, WrittenMembers;
    var tree := Unpacked(WrittenMembers(tools, pack, sources));
    WrittenUnpacks(tools, pack, sources, |pack.files|);
    forall name | name in pack.files ensures PathIn(pack, name) in tree && tree[PathIn(pack, name)] == sources[name] {
      var i :| 0 <= i < |pack.files| && pack.files[i] == name;
      assert Names(pack)[i] == name;
      WrittenUnpacks(tools, pack, sources, i);
    }
  }

  lemma {:induction false} WrittenManifestOk(tools: Tools, pack: Pack, sources: map<string, Content>)
    requires ToolsOk(tools) && GoodPack(pack) && SourcesOk(pack, sources)
    requires forall name :: name in pack.files ==> name in sources
    ensures ManifestOk(tools, pack, Unpacked(WrittenMembers(tools, pack, sources)))
  {
    hide Unpacked, PathIn, Manifest, WrittenMembers, SplitLines, EntriesOk, Lists, PinsOk, IsParent, Plain, ToolsOk,
         Ascii;
    SourcesReproduced(tools, pack, sources);
    ManifestReads(tools, pack, sources);
    ManifestEntries(tools, pack, sources);
  }

  /** A written archive extracts under its own digest exactly when it fits the size limit and
      its destination is free, and it reproduces every source. */
  lemma {:induction false} WrittenExtracts(tools: Tools, pack: Pack, sources: map<string, Content>, disk: map<string,
                                           Content>)
    requires ToolsOk(tools) && GoodPack(pack) && SourcesOk(pack, sources)
    requires forall name :: name in pack.files ==> name in sources
    ensures var members := WrittenMembers(tools, pack, sources);
            var archive := tools.encode(members);
            && (Extractable(tools, pack, archive, tools.sha256(archive), disk)
                <==> Size(members) <= SIZE_LIMIT && !Taken(disk, pack.root))
            && tools.decode(archive) == Some(members)
            && Reproduces(pack, sources, Unpacked(members))
  {
    hide MembersOk, ManifestOk, Unpacked, PathIn, WrittenMembers, Size, GoodPack, SourcesOk, Taken, Hex, Reproduces;
    WrittenMembersOk(tools, pack, sources);
    WrittenManifestOk(tools, pack, sources);
    SourcesReproduced(tools, pack, sources);
  }

  /** Every accepted archive holds each required file exactly once, as a non-empty regular file
      whose digest the manifest lists; everything else in it is a directory above them. */
  lemma {:induction false} AcceptedIsComplete(tools: Tools, pack: Pack, archive: Content, sha256: string,
                                              disk: map<string, Content>, name: string)
    returns (i: nat)
    requires Extractable(tools, pack, archive, sha256, disk) && name in Names(pack)
    ensures var members := tools.decode(archive).value;
            && i < |members| && members[i].name == PathIn(pack, name) && members[i].kind == Regular
            && members[i].data != ""
            && (forall j :: 0 <= j < |members| && members[j].name == PathIn(pack, name) ==> j == i)
            && (forall j :: 0 <= j < |members| && members[j].kind != Directory ==> Required(pack, members[j].name))
            && PathIn(pack, SUMS) in Unpacked(members)
            && (name in pack.files ==>
                  Lists(SplitLines(Unpacked(members)[PathIn(pack, SUMS)]), name, tools.sha256(members[i].data)))
  {
    hide PathIn, Size, RequiredDirectory, EntriesOk, PinsOk, SplitLines, Lists, Unpacked, Names, Hex, Ascii;
    var members := tools.decode(archive).value;
    assert Required(pack, PathIn(pack, name));
    assert Holds(members, PathIn(pack, name));
    i :| 0 <= i < |members| && members[i].name == PathIn(pack, name);
    assert MemberOk(pack, members[i]);
    UnpackedAt(members, i);
  }
}
