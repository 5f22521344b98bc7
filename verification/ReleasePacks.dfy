/** The release packs themselves: which files and pins each kind holds. */
module ReleasePacks {
  import opened Wrappers
  import opened ReleaseText
  import opened ReleaseArchive

  datatype Kind = V1 | V2 | V21

  const V1_RUNTIME: string := "v1/history-step.runtime"
  const V1_C00: string := "v1/history-step-c00.field-r1cs.zst"
  const V1_C01: string := "v1/history-step-c01.field-r1cs.zst"
  const V2_METADATA: string := "v2-runtime-metadata.bin"
  const V2_SMALL: string := "v2-small.field-r1cs.zst"
  const V2_LARGE: string := "v2-large.field-r1cs.zst"
  const KEY_0: string := "retirement-keys/class-0.key"
  const KEY_1: string := "retirement-keys/class-1.key"
  const CHECKS: string := "matrix-checks.json"
  const V21_METADATA: string := "v21-runtime-metadata.bin"
  const V21_SMALL: string := "v21-small.field-r1cs.zst"
  const V21_LARGE: string := "v21-large.field-r1cs.zst"
  const V21_NATIVE: string := "v21-native.field-r1cs.zst"

  /** The retired history profile drops both legacy matrices, and exists for the legacy pack only. */
  function PackFiles(kind: Kind, retired: bool): Option<seq<string>> {
    match kind
    case V1 => Some(if retired then [V1_RUNTIME, PINS_ENV] else [V1_RUNTIME, V1_C00, V1_C01, PINS_ENV])
    case V2 => if retired then None else Some([V2_METADATA, V2_SMALL, V2_LARGE, PINS_ENV, KEY_0, KEY_1, CHECKS])
    case V21 => if retired then None else Some([V21_METADATA, V21_SMALL, V21_LARGE, V21_NATIVE, PINS_ENV, CHECKS])
  }

  function Pins(kind: Kind): map<string, nat> {
    match kind
    case V1 => map["NOID_HISTORY_STEP_RUNTIME_METADATA_RELEASE_DIGEST" := 64,
                   "NOID_HISTORY_STEP_PACK_LEAF_DIGESTS" := 128]
    case V2 => map["NOID_V2_RELEASE_BANK" := 64, "NOID_RETIREMENT_KEY_0_PIN" := 64, "NOID_RETIREMENT_KEY_1_PIN" := 64]
    case V21 => map["NOID_V21_RELEASE_BANK" := 64]
  }

  function Root(kind: Kind): string {
    match kind
    case V1 => "history-step-pack-v1"
    case V2 => "history-step-pack-v2"
    case V21 => "history-step-pack-v21"
  }

  function PackOf(kind: Kind, retired: bool): Option<Pack> {
    match PackFiles(kind, retired)
    case None => None
    case Some(files) => Some(Pack(Root(kind), files, Pins(kind)))
  }

  predicate IsMatrix(name: string) {
    |name| >= 4 && name[|name| - 4..] == ".zst"
  }

  function WithoutMatrices(files: seq<string>): seq<string> {
    if files == [] then []
    else (if IsMatrix(files[0]) then [] else [files[0]]) + WithoutMatrices(files[1..])
  }

  lemma {:induction false} WithoutFirst(name: string, rest: seq<string>)
    ensures WithoutMatrices([name] + rest) == (if IsMatrix(name) then [] else [name]) + WithoutMatrices(rest)
  {
    hide IsMatrix;
    assert ([name] + rest)[1..] == rest;
  }

  lemma {:induction false} LegacyMatrices()
    ensures IsMatrix(V1_C00) && IsMatrix(V1_C01) && !IsMatrix(V1_RUNTIME) && !IsMatrix(PINS_ENV)
  {
    assert V1_C00[30..] == ".zst" && V1_C01[30..] == ".zst";
    assert V1_RUNTIME[19] != '.' && PINS_ENV[5] != 'z';
  }

  lemma {:induction false} FourNames(a: string, b: string, c: string, d: string)
    requires !IsMatrix(a) && IsMatrix(b) && IsMatrix(c) && !IsMatrix(d)
    ensures WithoutMatrices([a, b, c, d]) == [a, d]
  {
    hide IsMatrix;
    WithoutFirst(a, [b, c, d]);
    WithoutFirst(b, [c, d]);
    WithoutFirst(c, [d]);
    assert [d][1..] == [];
  }

  /** Retiring the legacy pack drops its matrices and nothing else. */
  lemma {:induction false} RetiredDropsMatrices()
    ensures PackFiles(V1, false).Some? && PackFiles(V1, true) == Some(WithoutMatrices(PackFiles(V1, false).value))
  {
    hide WithoutMatrices, IsMatrix;
    LegacyMatrices();
    FourNames(V1_RUNTIME, V1_C00, V1_C01, PINS_ENV);
  }

  /** Every pin is one digest in hexadecimal, but the legacy leaf pin, which is two. */
  lemma {:induction false} PinsAreDigests(kind: Kind, name: string)
    requires name in Pins(kind)
    ensures Pins(kind)[name] == if name == "NOID_HISTORY_STEP_PACK_LEAF_DIGESTS" then 2 * 64 else 64
  {
    assert name == "NOID_HISTORY_STEP_PACK_LEAF_DIGESTS" ==> |name| == 35;
  }

  // ------------------------------------------------------- the tables are well formed

  /** Printable characters only, directories of 2 or 15 characters only, and a length that is neither of
      those nor the manifest's. */
  ghost predicate Known(name: string) {
    && (forall i :: 0 <= i < |name| ==> 32 < name[i] as int < 127 && (name[i] == '/' ==> i == 2 || i == 15))
    && 0 < |name| && |name| != 2 && |name| != 10 && |name| != 15
  }

  /** Known and different names, the pins among them, make a well-formed pack. */
  lemma {:induction false} KnownPack(pack: Pack)
    requires (forall name :: name in pack.files ==> Known(name)) && Distinct(pack.files)
    requires PINS_ENV in pack.files && '/' !in pack.root
    ensures GoodPack(pack)
  {
    var sums := SUMS;
    assert |sums| == 10 && '/' !in sums;
    forall name | name in pack.files ensures Plain(name) && name != sums {
      assert Known(name);
      forall c | c in name ensures c as int < 128 && !Break(c) {
        var i :| 0 <= i < |name| && name[i] == c;
      }
    }
    forall a, b | a in Names(pack) && b in Names(pack) ensures !IsParent(b, a) {
      assert (a == sums || Known(a)) && (b == sums || Known(b));
    }
  }

  lemma {:induction false} V1Known()
    ensures Known(V1_RUNTIME) && Known(V1_C00)
  {
  }

  lemma {:induction false} V1MoreKnown()
    ensures Known(V1_C01)
  {
  }

  lemma {:induction false} V2Known()
    ensures Known(V2_METADATA) && Known(V2_SMALL) && Known(V2_LARGE)
  {
  }

  lemma {:induction false} V21Known()
    ensures Known(V21_METADATA) && Known(V21_SMALL)
  {
  }

  lemma {:induction false} V21MoreKnown()
    ensures Known(V21_LARGE) && Known(V21_NATIVE)
  {
  }

  lemma {:induction false} SharedKnown()
    ensures Known(PINS_ENV) && Known(KEY_0) && Known(KEY_1) && Known(CHECKS)
  {
  }

  lemma {:induction false} Lengths()
    ensures |PINS_ENV| == 8 && |CHECKS| == 18 && |V1_RUNTIME| == 23 && |V1_C00| == |V1_C01| == 34
    ensures |V2_METADATA| == |V2_SMALL| == |V2_LARGE| == 23 && |KEY_0| == |KEY_1| == 27
    ensures |V21_METADATA| == |V21_SMALL| == |V21_LARGE| == 24 && |V21_NATIVE| == 25
  {
  }

  lemma {:induction false} Differ()
    ensures V1_C00 != V1_C01 && KEY_0 != KEY_1
    ensures V2_METADATA != V2_SMALL && V2_METADATA != V2_LARGE && V2_SMALL != V2_LARGE
    ensures V21_METADATA != V21_SMALL && V21_METADATA != V21_LARGE && V21_SMALL != V21_LARGE
  {
    assert V1_C00[18] != V1_C01[18] && KEY_0[22] != KEY_1[22];
    assert V2_METADATA[3] != V2_SMALL[3] && V2_METADATA[3] != V2_LARGE[3] && V2_SMALL[3] != V2_LARGE[3];
    assert V21_METADATA[4] != V21_SMALL[4] && V21_METADATA[4] != V21_LARGE[4] && V21_SMALL[4] != V21_LARGE[4];
  }

  lemma {:induction false} TablesHold(kind: Kind, retired: bool)
    requires PackFiles(kind, retired).Some?
    ensures var files := PackFiles(kind, retired).value;
            Distinct(files) && PINS_ENV in files && forall name :: name in files ==> Known(name)
  {
    hide Known;
    Lengths();
    Differ();
    SharedKnown();
    match kind {
      case V1 =>
        V1Known();
        V1MoreKnown();
      case V2 => V2Known();
      case V21 =>
        V21Known();
        V21MoreKnown();
    }
  }

  lemma {:induction false} RootsFlat(kind: Kind)
    ensures '/' !in Root(kind)
  {
  }

  /** Every kind and profile that has a pack has a well-formed one; only the legacy kind can be retired. */
  lemma {:induction false} EveryPackIsGood(kind: Kind, retired: bool)
    ensures PackOf(kind, retired).Some? <==> (retired ==> kind == V1)
    ensures PackOf(kind, retired).Some? ==> GoodPack(PackOf(kind, retired).value)
  {
    hide GoodPack, Known, Root, Pins;
    if PackFiles(kind, retired).Some? {
      TablesHold(kind, retired);
      RootsFlat(kind);
      KnownPack(PackOf(kind, retired).value);
    }
  }

  /** The check manifest travels with the packs whose matrices it covers. */
  lemma {:induction false} ChecksTravel(kind: Kind)
    ensures PackFiles(kind, false).Some? && (CHECKS in PackFiles(kind, false).value <==> kind != V1)
    ensures |PackFiles(kind, false).value| == match kind case V1 => 4 case V2 => 7 case V21 => 6
  {
    Lengths();
  }

  /** For every kind and profile: an archive written from acceptable sources extracts under its
      own digest exactly when it fits and its destination is free, and reproduces every source. */
  lemma {:induction false} EveryPackRoundTrips(tools: Tools, kind: Kind, retired: bool, sources: map<string, Content>,
                                               disk: map<string, Content>)
    requires ToolsOk(tools) && PackOf(kind, retired).Some? && SourcesOk(PackOf(kind, retired).value, sources)
    ensures var pack := PackOf(kind, retired).value;
            (forall name :: name in pack.files ==> name in sources) &&
            var members := WrittenMembers(tools, pack, sources);
            var archive := tools.encode(members);
            && (Extractable(tools, pack, archive, tools.sha256(archive), disk)
                <==> |Payload(members)| <= 134_217_728 && !Taken(disk, pack.root))
            && tools.decode(archive) == Some(members)
            && Reproduces(pack, sources, Unpacked(members))
  {
    hide GoodPack, Extractable, Size, Payload, Taken, Reproduces, Unpacked, ToolsOk, PackOf, WrittenMembers;
    var pack := PackOf(kind, retired).value;
    EveryPackIsGood(kind, retired);
    SourcesCover(pack, sources);
    WrittenExtracts(tools, pack, sources, disk);
    PayloadIsSize(WrittenMembers(tools, pack, sources));
  }

  lemma {:induction false} PayloadIsSize(members: seq<Member>)
    ensures |Payload(members)| == Size(members)
  {
    SizeIsPayload(members, |members|);
    assert members[..|members|] == members && members[|members|..] == [];
  }

  lemma {:induction false} SourcesCover(pack: Pack, sources: map<string, Content>)
    requires SourcesOk(pack, sources)
    ensures forall name :: name in pack.files ==> name in sources
  {
    hide PinsOk, SplitLines, Ascii;
    forall name | name in pack.files ensures name in sources {
      assert name in sources.Keys;
    }
  }
}
