/** The matrix-pack preflight: a full check writes a manifest, and a release build replays
    the manifest instead of repeating the check. Hashing, hex and JSON are parameters; a
    failed assertion is `None`. */
module MatrixChecks {
  import opened Wrappers
  import opened Wire

  const MAX_CANONICAL_BYTES: nat := 1024 * 1024 * 1024
  const MAX_MANIFEST_BYTES: nat := 64 * 1024
  const SCHEMA: nat := 1

  datatype Shape = Shape(m: nat, kLog: nat, kSkip: nat, constPin: Option<nat>)

  datatype MatrixCheck = MatrixCheck(file: string, compressedSha256: string, statementDigest: string,
                                     canonicalBytes: nat, shape: Shape)

  datatype Manifest = Manifest(schema: nat, bank: string, metadataSha256: string, matrices: seq<MatrixCheck>)

  datatype Seal = Seal(shape: Shape, statementDigest: Digest, canonicalBytes: nat)

  datatype Tools = Tools(
    sha256: Bytes -> string,
    hex: Digest -> string,
    serialize: Manifest -> Bytes,
    parse: Bytes -> Option<Manifest>)

  // ------------------------------------------------------------- specification

  datatype Checks = Checks(checked: Option<Manifest>, result: Manifest, classes: nat)

  /** One class of the pack, with what the full check would return for it. */
  datatype Input = Input(file: string, compressed: Bytes, shape: Shape, statementDigest: Digest, full: Seal)

  function Fresh(tools: Tools, bank: Digest, metadata: Bytes): Manifest {
    Manifest(SCHEMA, tools.hex(bank), tools.sha256(metadata), [])
  }

  function Record(tools: Tools, input: Input, canonicalBytes: nat): MatrixCheck {
    MatrixCheck(input.file, tools.sha256(input.compressed), tools.hex(input.statementDigest), canonicalBytes,
                input.shape)
  }

  predicate InBounds(canonicalBytes: nat) {
    1 <= canonicalBytes <= MAX_CANONICAL_BYTES
  }

  /** What the replay asserts about the manifest entry at its position. */
  predicate EntryMatches(tools: Tools, entry: MatrixCheck, input: Input) {
    && entry.file == input.file
    && entry.compressedSha256 == tools.sha256(input.compressed)
    && entry.statementDigest == tools.hex(input.statementDigest)
    && entry.shape == input.shape
    && InBounds(entry.canonicalBytes)
  }

  function SealFor(tools: Tools, st: Checks, input: Input): Option<Seal> {
    match st.checked
    case None => Some(input.full)
    case Some(checked) =>
      var at := |st.result.matrices|;
      if at >= |checked.matrices| || !EntryMatches(tools, checked.matrices[at], input) then None
      else Some(Seal(input.shape, input.statementDigest, checked.matrices[at].canonicalBytes))
  }

  function Authenticate(tools: Tools, st: Checks, input: Input): Option<(Checks, Seal)> {
    match SealFor(tools, st, input)
    case None => None
    case Some(seal) =>
      Some((st.(result := st.result.(matrices := st.result.matrices + [Record(tools, input, seal.canonicalBytes)])),
            seal))
  }

  function RunAll(tools: Tools, st: Checks, inputs: seq<Input>): Option<(Checks, seq<Seal>)>
    decreases |inputs|
  {
    if inputs == [] then Some((st, []))
    else
      match RunAll(tools, st, inputs[..|inputs| - 1])
      case None => None
      case Some((before, seals)) =>
        match Authenticate(tools, before, inputs[|inputs| - 1])
        case None => None
        case Some((after, seal)) => Some((after, seals + [seal]))
  }

  /** Open, authenticate every class, write: the whole preflight over `inputs`. */
  function Preflight(tools: Tools, st: Checks, inputs: seq<Input>): Option<(Manifest, seq<Seal>)> {
    match RunAll(tools, st, inputs)
    case None => None
    case Some((after, seals)) => if |after.result.matrices| != after.classes then None else Some((after.result, seals))
  }

  // ------------------------------------------------------------------- opening

  datatype Mode = Unset | One | Other

  /** What the build environment and the pack directory hold. */
  datatype Environment = Environment(mode: Mode, pin: Option<string>, file: Option<Bytes>)

  predicate PinFormat(pin: string) {
    |pin| == 64 && forall i :: 0 <= i < |pin| ==> HexDigit(pin[i])
  }

  function Open(tools: Tools, env: Environment, pack: string, bank: Digest, metadata: Bytes,
                classes: nat): Option<Checks> {
    var result := Fresh(tools, bank, metadata);
    match env.mode
    case Unset => Some(Checks(None, result, classes))
    case Other => None
    case One =>
      if pack != "v2" && pack != "v21" then None
      else if env.pin.None? || !PinFormat(env.pin.value) then None
      else if env.file.None? || |env.file.value| > MAX_MANIFEST_BYTES then None
      else if tools.sha256(env.file.value) != env.pin.value then None
      else
        match tools.parse(env.file.value)
        case None => None
        case Some(manifest) =>
          if && manifest.schema == result.schema && manifest.bank == result.bank
             && manifest.metadataSha256 == result.metadataSha256
             && |manifest.matrices| == classes
          then Some(Checks(Some(manifest), result, classes))
          else None
  }

  /** A prechecked pack opens exactly if the pack is a pinned one, the pin has its format, the file is small
      enough and hashes to the pin, and the manifest it holds is for this bank, metadata and class count. */
  lemma {:induction false} OpensExactly(tools: Tools, env: Environment, pack: string, bank: Digest, metadata: Bytes,
                                        classes: nat)
    requires env.mode == One
    ensures Open(tools, env, pack, bank, metadata, classes).Some? <==>
            && pack in {"v2", "v21"} && env.pin.Some? && env.file.Some?
            && |env.pin.value| == 64 && (forall i :: 0 <= i < 64 ==> env.pin.value[i] in "0123456789abcdef")
            && |env.file.value| <= 65536 && tools.sha256(env.file.value) == env.pin.value
            && tools.parse(env.file.value).Some?
            && tools.parse(env.file.value).value.schema == 1
            && tools.parse(env.file.value).value.bank == tools.hex(bank)
            && tools.parse(env.file.value).value.metadataSha256 == tools.sha256(metadata)
            && |tools.parse(env.file.value).value.matrices| == classes
    ensures Open(tools, env, pack, bank, metadata, classes).Some? ==>
              Open(tools, env, pack, bank, metadata, classes).value
              == Checks(tools.parse(env.file.value), Manifest(1, tools.hex(bank), tools.sha256(metadata), []), classes)
  {
    if env.pin.Some? { HexDigits(env.pin.value); }
  }

  lemma {:induction false} HexDigits(pin: string)
    ensures PinFormat(pin) <==> |pin| == 64 && forall i :: 0 <= i < 64 ==> pin[i] in "0123456789abcdef"
  {
    forall c: char ensures HexDigit(c) <==> c in "0123456789abcdef" {
      HexDigitIs(c);
    }
  }

  /** Two files opened under one pin are the same file, or collide. */
  lemma {:induction false} PinBinds(tools: Tools, a: Environment, b: Environment, pack: string, bank: Digest,
                                    metadata: Bytes, classes: nat)
    requires a.mode == One && b.mode == One && a.pin == b.pin
    requires Open(tools, a, pack, bank, metadata, classes).Some?
    requires Open(tools, b, pack, bank, metadata, classes).Some?
    ensures a.file == b.file
            || (a.file.value != b.file.value && tools.sha256(a.file.value) == tools.sha256(b.file.value))
  {
    hide Open, PinFormat;
    OpensExactly(tools, a, pack, bank, metadata, classes);
    OpensExactly(tools, b, pack, bank, metadata, classes);
  }

  // ------------------------------------------------------------------ full runs

  function Records(tools: Tools, inputs: seq<Input>): (records: seq<MatrixCheck>)
    ensures |records| == |inputs|
  {
    if inputs == [] then []
    else
      var last := inputs[|inputs| - 1];
      Records(tools, inputs[..|inputs| - 1]) + [Record(tools, last, last.full.canonicalBytes)]
  }

  function FullSeals(inputs: seq<Input>): (seals: seq<Seal>)
    ensures |seals| == |inputs|
  {
    if inputs == [] then [] else FullSeals(inputs[..|inputs| - 1]) + [inputs[|inputs| - 1].full]
  }

  /** The manifest of a complete full-check run. */
  function FullManifest(tools: Tools, bank: Digest, metadata: Bytes, inputs: seq<Input>): Manifest {
    Fresh(tools, bank, metadata).(matrices := Records(tools, inputs))
  }

  lemma {:induction false} FullRun(tools: Tools, bank: Digest, metadata: Bytes, classes: nat, inputs: seq<Input>)
    ensures RunAll(tools, Checks(None, Fresh(tools, bank, metadata), classes), inputs) ==
            Some((Checks(None, FullManifest(tools, bank, metadata, inputs), classes), FullSeals(inputs)))
    decreases |inputs|
  {
    if inputs != [] { FullRun(tools, bank, metadata, classes, inputs[..|inputs| - 1]); }
  }

  // --------------------------------------------------------------------- replay

  /** The full check authenticates what it was given. */
  ghost predicate Honest(inputs: seq<Input>) {
    forall i :: 0 <= i < |inputs| ==>
                  inputs[i].full.shape == inputs[i].shape && inputs[i].full.statementDigest == inputs[i].statementDigest
  }

  ghost predicate AllInBounds(inputs: seq<Input>) {
    forall i :: 0 <= i < |inputs| ==> 1 <= inputs[i].full.canonicalBytes <= 0x4000_0000
  }

  lemma {:induction false} RecordsAt(tools: Tools, inputs: seq<Input>, i: nat)
    requires i < |inputs|
    ensures Records(tools, inputs)[i] == Record(tools, inputs[i], inputs[i].full.canonicalBytes)
  {
    if i < |inputs| - 1 { RecordsAt(tools, inputs[..|inputs| - 1], i); }
  }

  /** One class of the replay: the entry is the one the full check wrote. */
  lemma {:induction false} ReplayOne(tools: Tools, st: Checks, input: Input)
    requires st.checked.Some? && |st.result.matrices| < |st.checked.value.matrices|
    requires st.checked.value.matrices[|st.result.matrices|] == Record(tools, input, input.full.canonicalBytes)
    requires input.full.shape == input.shape && input.full.statementDigest == input.statementDigest
    ensures Authenticate(tools, st, input) ==
            if !InBounds(input.full.canonicalBytes) then None
            else
              Some((st.(result := st.result.(matrices := st.result.matrices + [Record(tools, input,
                  input.full.canonicalBytes)])),
                    input.full))
  {
  }

  lemma {:induction false} FullUnfolds(tools: Tools, bank: Digest, metadata: Bytes, inputs: seq<Input>, n: nat)
    requires n < |inputs|
    ensures var m := FullManifest(tools, bank, metadata, inputs[..n]);
            FullManifest(tools, bank, metadata, inputs[..n + 1]) ==
            m.(matrices := m.matrices + [Record(tools, inputs[n], inputs[n].full.canonicalBytes)])
    ensures FullSeals(inputs[..n + 1]) == FullSeals(inputs[..n]) + [inputs[n].full]
    ensures AllInBounds(inputs[..n + 1]) <==> AllInBounds(inputs[..n]) && InBounds(inputs[n].full.canonicalBytes)
  {
    hide Record;
    assert inputs[..n + 1][..n] == inputs[..n] && inputs[..n + 1][n] == inputs[n];
  }

  lemma {:induction false} RunUnfolds(tools: Tools, st: Checks, inputs: seq<Input>, n: nat)
    requires n < |inputs|
    ensures RunAll(tools, st, inputs[..n + 1]) ==
            match RunAll(tools, st, inputs[..n])
            case None => None
            case Some((before, seals)) =>
              match Authenticate(tools, before, inputs[n])
              case None => None
              case Some((after, seal)) => Some((after, seals + [seal]))
  {
    hide Authenticate;
    assert inputs[..n + 1][..n] == inputs[..n] && inputs[..n + 1][n] == inputs[n];
  }

  /** Replaying the first `n` classes of a full-check manifest over the same inputs. */
  lemma {:induction false} ReplayPrefix(tools: Tools, bank: Digest, metadata: Bytes, inputs: seq<Input>, n: nat)
    requires n <= |inputs| && Honest(inputs)
    ensures var checked := FullManifest(tools, bank, metadata, inputs);
            RunAll(tools, Checks(Some(checked), Fresh(tools, bank, metadata), |inputs|), inputs[..n]) ==
            if AllInBounds(inputs[..n])
            then Some((Checks(Some(checked), FullManifest(tools, bank, metadata, inputs[..n]), |inputs|),
                       FullSeals(inputs[..n])))
            else None
    decreases n
  {
    if n == 0 {
      assert inputs[..0] == [];
    } else {
      hide RunAll, Authenticate, AllInBounds, FullSeals, Record, InBounds;
      var st := Checks(Some(FullManifest(tools, bank, metadata, inputs)), Fresh(tools, bank, metadata), |inputs|);
      ReplayPrefix(tools, bank, metadata, inputs, n - 1);
      RunUnfolds(tools, st, inputs, n - 1);
      FullUnfolds(tools, bank, metadata, inputs, n - 1);
      RecordsAt(tools, inputs, n - 1);
      ReplayOne(tools, st.(result := FullManifest(tools, bank, metadata, inputs[..n - 1])), inputs[n - 1]);
    }
  }

  /** JSON reads back what it wrote, and a digest has the pin format. */
  ghost predicate ToolsOk(tools: Tools) {
    && (forall m :: tools.parse(tools.serialize(m)) == Some(m))
    && (forall b :: PinFormat(tools.sha256(b)))
  }

  /** The manifest of a complete full-check run, replayed over the same inputs under its own
      pin: it opens exactly when it fits the read bound, the replay fails exactly when some
      canonical length is out of bounds, and otherwise it returns the same seals and writes
      an equal manifest. */
  lemma {:induction false} ReplayOfFullRun(tools: Tools, pack: string, bank: Digest, metadata: Bytes,
                                           inputs: seq<Input>)
    requires ToolsOk(tools) && Honest(inputs) && (pack == "v2" || pack == "v21")
    ensures var full := FullManifest(tools, bank, metadata, inputs);
            var file := tools.serialize(full);
            var ready := Open(tools, Environment(One, Some(tools.sha256(file)), Some(file)), pack, bank, metadata,
                              |inputs|);
            && (ready.Some? <==> |file| <= MAX_MANIFEST_BYTES)
            && (ready.Some? ==>
                  Preflight(tools, ready.value, inputs)
                    == if AllInBounds(inputs) then Some((full, FullSeals(inputs))) else None)
  {
    hide RunAll, PinFormat, AllInBounds;
    ReplayPrefix(tools, bank, metadata, inputs, |inputs|);
    assert inputs[..|inputs|] == inputs;
  }

  /** A full-check run over as many classes as announced always completes. */
  lemma {:induction false} FullPreflight(tools: Tools, pack: string, bank: Digest, metadata: Bytes, inputs: seq<Input>)
    ensures var ready := Open(tools, Environment(Unset, None, None), pack, bank, metadata, |inputs|);
            && ready.Some?
            && Preflight(tools, ready.value, inputs)
              == Some((FullManifest(tools, bank, metadata, inputs), FullSeals(inputs)))
  {
    hide RunAll;
    FullRun(tools, bank, metadata, |inputs|, inputs);
  }

  ghost predicate SealsFrom(checked: Manifest, inputs: seq<Input>, seals: seq<Seal>) {
    && |seals| == |inputs| <= |checked.matrices|
    && forall i :: 0 <= i < |seals| ==>
                     seals[i] == Seal(inputs[i].shape, inputs[i].statementDigest, checked.matrices[i].canonicalBytes)
  }

  lemma {:induction false} ReplayStep(tools: Tools, st: Checks, input: Input)
    requires st.checked.Some? && st.result.matrices <= st.checked.value.matrices && Authenticate(tools, st, input).Some?
    ensures var (after, seal) := Authenticate(tools, st, input).value;
            var at := |st.result.matrices|;
            && after == st.(result := after.result) && after.result == st.result.(matrices := after.result.matrices)
            && |after.result.matrices| == at + 1 <= |st.checked.value.matrices|
            && after.result.matrices <= st.checked.value.matrices
            && seal == Seal(input.shape, input.statementDigest, st.checked.value.matrices[at].canonicalBytes)
  {
    var at, checked := |st.result.matrices|, st.checked.value.matrices;
    assert checked[..at + 1] == checked[..at] + [checked[at]];
  }

  /** Whatever a replay has recorded so far is the front of the manifest it replays. */
  lemma {:induction false} ReplayRecordsFront(tools: Tools, st: Checks, inputs: seq<Input>)
    requires st.checked.Some? && st.result.matrices == [] && RunAll(tools, st, inputs).Some?
    ensures var (after, seals) := RunAll(tools, st, inputs).value;
            && after == st.(result := after.result) && after.result == st.result.(matrices := after.result.matrices)
            && |after.result.matrices| == |inputs| && after.result.matrices <= st.checked.value.matrices
            && SealsFrom(st.checked.value, inputs, seals)
    decreases |inputs|
  {
    hide Authenticate;
    if inputs != [] {
      var n := |inputs| - 1;
      ReplayRecordsFront(tools, st, inputs[..n]);
      ReplayStep(tools, RunAll(tools, st, inputs[..n]).value.0, inputs[n]);
    }
  }

  /** Every prechecked run that completes re-emits the manifest it was given, and seals each
      class with the shape and digest presented now and the length recorded then. */
  lemma {:induction false} ReplayReemits(tools: Tools, env: Environment, pack: string, bank: Digest, metadata: Bytes,
                                         classes: nat, inputs: seq<Input>)
    requires env.mode == One && Open(tools, env, pack, bank, metadata, classes).Some?
    requires Preflight(tools, Open(tools, env, pack, bank, metadata, classes).value, inputs).Some?
    ensures var st := Open(tools, env, pack, bank, metadata, classes).value;
            var (manifest, seals) := Preflight(tools, st, inputs).value;
            && |inputs| == classes && env.pin == Some(tools.sha256(env.file.value))
            && tools.parse(env.file.value) == Some(manifest)
            && SealsFrom(manifest, inputs, seals)
  {
    hide RunAll, SealsFrom, PinFormat;
    var st := Open(tools, env, pack, bank, metadata, classes).value;
    ReplayRecordsFront(tools, st, inputs);
    var after := RunAll(tools, st, inputs).value.0;
    assert after.result.matrices == st.checked.value.matrices;
  }

  /** A replay that completes against one run's manifest was shown the same classes: equal
      files, shapes, payload hashes and statement digests, in the same order. */
  lemma {:induction false} ReplayBindsInputs(tools: Tools, bank: Digest, metadata: Bytes, written: seq<Input>,
                                             shown: seq<Input>, i: nat)
    requires i < |written|
    requires Preflight(tools, Checks(Some(FullManifest(tools, bank, metadata, written)), Fresh(tools, bank, metadata),
                                     |written|), shown).Some?
    ensures |shown| == |written|
    ensures shown[i].file == written[i].file && shown[i].shape == written[i].shape
    ensures tools.sha256(shown[i].compressed) == tools.sha256(written[i].compressed)
    ensures tools.hex(shown[i].statementDigest) == tools.hex(written[i].statementDigest)
    ensures 1 <= written[i].full.canonicalBytes <= 0x4000_0000
  {
    hide RunAll, Records;
    var st := Checks(Some(FullManifest(tools, bank, metadata, written)), Fresh(tools, bank, metadata), |written|);
    ReplayRecordsFront(tools, st, shown);
    ReplayMatchedAt(tools, st, shown, i);
    RecordsAt(tools, written, i);
  }

  lemma {:induction false} AcceptedMatches(tools: Tools, st: Checks, input: Input)
    requires st.checked.Some? && Authenticate(tools, st, input).Some?
    ensures |st.result.matrices| < |st.checked.value.matrices|
    ensures EntryMatches(tools, st.checked.value.matrices[|st.result.matrices|], input)
  {
    hide EntryMatches;
  }

  lemma {:induction false} ReplayMatchedAt(tools: Tools, st: Checks, inputs: seq<Input>, i: nat)
    requires st.checked.Some? && st.result.matrices == [] && RunAll(tools, st, inputs).Some? && i < |inputs|
    ensures i < |st.checked.value.matrices| && EntryMatches(tools, st.checked.value.matrices[i], inputs[i])
    decreases |inputs|
  {
    hide EntryMatches, Authenticate, SealsFrom;
    var n := |inputs| - 1;
    ReplayRecordsFront(tools, st, inputs[..n]);
    if i < n {
      ReplayMatchedAt(tools, st, inputs[..n], i);
    } else {
      AcceptedMatches(tools, RunAll(tools, st, inputs[..n]).value.0, inputs[n]);
    }
  }

  // ----------------------------------------------------------------- the object

  class PackChecks {
    const tools: Tools
    const classes: nat
    var checked: Option<Manifest>
    var result: Manifest

    function Value(): Checks
      reads this
    {
      Checks(checked, result, classes)
    }

    constructor (tools: Tools, st: Checks)
      ensures this.tools == tools && Value() == st
    {
      this.tools := tools;
      classes := st.classes;
      checked := st.checked;
      result := st.result;
    }

    /** One class; the position replayed is the number of classes recorded so far. */
    method AuthenticateNext(input: Input) returns (seal: Option<Seal>)
      modifies `result
      ensures seal.Some? <==> Authenticate(tools, old(Value()), input).Some?
      ensures seal.Some? ==> Authenticate(tools, old(Value()), input) == Some((Value(), seal.value))
    {
      var compressedSha256 := tools.sha256(input.compressed);
      var digest := tools.hex(input.statementDigest);
      var s := input.full;
      if checked.Some? {
        var at := |result.matrices|;
        if at >= |checked.value.matrices| {
          return None;
        }
        var entry := checked.value.matrices[at];
        if entry.file != input.file || entry.compressedSha256 != compressedSha256 || entry.statementDigest != digest
           || entry.shape != input.shape || !InBounds(entry.canonicalBytes) {
          return None;
        }
        s := Seal(input.shape, input.statementDigest, entry.canonicalBytes);
      }
      result := result.(matrices := result.matrices + [MatrixCheck(input.file, compressedSha256, digest,
                                                                   s.canonicalBytes, input.shape)]);
      return Some(s);
    }

    method Write() returns (file: Option<Bytes>)
      ensures file == if |result.matrices| == classes then Some(tools.serialize(result)) else None
    {
      if |result.matrices| != classes {
        return None;
      }
      return Some(tools.serialize(result));
    }
  }

  /** The build step: every class in order, then the manifest. */
  method RunPreflight(tools: Tools, st: Checks, inputs: seq<Input>) returns (file: Option<Bytes>, seals: seq<Seal>)
    ensures file.Some? <==> Preflight(tools, st, inputs).Some?
    ensures file.Some? ==>
              && Preflight(tools, st, inputs).value.1 == seals
              && file.value == tools.serialize(Preflight(tools, st, inputs).value.0)
  {
    hide Authenticate;
    var checks := new PackChecks(tools, st);
    seals := [];
    for i := 0 to |inputs|
      invariant RunAll(tools, st, inputs[..i]) == Some((checks.Value(), seals))
      invariant fresh(checks)
    {
      assert inputs[..i + 1][..i] == inputs[..i];
      var seal := checks.AuthenticateNext(inputs[i]);
      if seal.None? {
        RunFails(tools, st, inputs, i + 1);
        return None, [];
      }
      seals := seals + [seal.value];
    }
    assert inputs[..|inputs|] == inputs;
    file := checks.Write();
  }

  lemma {:induction false} RunFails(tools: Tools, st: Checks, inputs: seq<Input>, n: nat)
    requires n <= |inputs| && RunAll(tools, st, inputs[..n]).None?
    ensures RunAll(tools, st, inputs).None?
    decreases |inputs|
  {
    hide Authenticate;
    if n == |inputs| {
      assert inputs[..n] == inputs;
    } else {
      assert inputs[..|inputs| - 1][..n] == inputs[..n];
      RunFails(tools, st, inputs[..|inputs| - 1], n);
    }
  }
}
