/** The configuration store: a base read from YAML, an overlay accumulated through the admin
    API, and the overlay file, kept consistent through failures and restarts. */
module ConfigStores {
  import opened Basics
  import opened JsonMerge

  datatype Result<T> = Ok(value: T) | Err(reasons: seq<string>)

  /** Deserialisation into the typed configuration and its validation (which lists errors);
      both are outside this model and arbitrary. */
  datatype Schema<!Cfg> = Schema(parse: Json -> Result<Cfg>, validate: Cfg -> seq<string>)

  /** A file that may hold a JSON document: also one whose text is not JSON, or whose bytes
      are not text at all. */
  datatype File = Missing | Blank | Unparsable | NotText | Holds(doc: Json)

  /** Where writing the overlay goes wrong. */
  datatype Fault = NoFault | AtCreate | AtWrite | AtSync | AtRename

  /** Memory and the two files of a running store. */
  datatype Mem = Mem(base: Json, overlay: Json, file: File, tmp: File)

  // ------------------------------------------------------------------- operations

  /** Base and overlay merged make this configuration, and validation finds nothing. */
  ghost predicate Yields<Cfg>(schema: Schema<Cfg>, base: Json, overlay: Json, cfg: Cfg) {
    schema.parse(Merge(base, overlay)) == Ok(cfg) && schema.validate(cfg) == []
  }

  ghost predicate IsValid<Cfg>(schema: Schema<Cfg>, base: Json, overlay: Json) {
    var parsed := schema.parse(Merge(base, overlay));
    parsed.Ok? && Yields(schema, base, overlay, parsed.value)
  }

  /** A verdict on base and overlay: the configuration they make, the reasons why they make
      none, or what validation finds wrong with it. */
  ghost predicate IsVerdict<Cfg>(schema: Schema<Cfg>, base: Json, overlay: Json, r: Result<Cfg>) {
    match schema.parse(Merge(base, overlay))
    case Err(reasons) => r == Err(reasons)
    case Ok(cfg) => r == if schema.validate(cfg) == [] then Ok(cfg) else Err(schema.validate(cfg))
  }

  /** Base and overlay merged, parsed and validated. */
  function Checked<Cfg>(schema: Schema<Cfg>, base: Json, overlay: Json): Result<Cfg> {
    var parsed := schema.parse(Merge(base, overlay));
    if parsed.Err? then parsed
    else
      var errors := schema.validate(parsed.value);
      if errors != [] then Err(errors) else parsed
  }

  /** The overlay a file stands for, if it stands for one. */
  function OverlayOf(file: File): Option<Json> {
    match file
    case Missing => Some(EMPTY_OBJECT)
    case Blank => Some(EMPTY_OBJECT)
    case Unparsable => None
    case NotText => None
    case Holds(doc) => Some(doc)
  }

  /** Whether reading the file gives its text; `readable` says that the read itself works. */
  predicate Reads(file: File, readable: bool) {
    readable && file != NotText
  }

  /** The overlay `load` starts with: a file that cannot be read counts as an empty one, text
      that is not JSON is an error. */
  function LoadedOverlay(file: File, readable: bool): Option<Json> {
    if Reads(file, readable) then OverlayOf(file) else Some(EMPTY_OBJECT)
  }

  /** The files after an attempt to write `doc`: temporary file, sync, rename. */
  function Written(m: Mem, doc: Json, fault: Fault): Mem {
    match fault
    case AtCreate => m
    case AtWrite => m.(tmp := Unparsable)
    case AtSync => m.(tmp := Holds(doc))
    case AtRename => m.(tmp := Holds(doc))
    case NoFault => m.(file := Holds(doc), tmp := Missing)
  }

  /** Put `overlay` in force: validate, write, then commit in memory. */
  function Install<Cfg>(schema: Schema<Cfg>, m: Mem, overlay: Json, fault: Fault): (Mem, Result<Cfg>) {
    var checked := Checked(schema, m.base, overlay);
    if checked.Err? then (m, checked)
    else if !fault.NoFault? then (Written(m, overlay, fault), Err(["overlay not written"]))
    else (Written(m, overlay, fault).(overlay := overlay), checked)
  }

  function ReloadBase<Cfg>(schema: Schema<Cfg>, m: Mem, read: Result<Json>): (Mem, Result<Cfg>) {
    if read.Err? then (m, Err(read.reasons))
    else
      var checked := Checked(schema, read.value, m.overlay);
      if checked.Err? then (m, checked) else (m.(base := read.value), checked)
  }

  /** The store object; files are fields, and the outcome of every write and of reading the
      base file is a parameter. */
  class ConfigStore<Cfg> {
    const schema: Schema<Cfg>
    var base: Json
    var overlay: Json
    var file: File
    var tmp: File

    ghost function State(): Mem
      reads this
    {
      Mem(base, overlay, file, tmp)
    }

    constructor (schema: Schema<Cfg>, base: Json, overlay: Json, file: File, tmp: File)
      ensures this.schema == schema && State() == Mem(base, overlay, file, tmp)
    {
      this.schema, this.base, this.overlay, this.file, this.tmp := schema, base, overlay, file, tmp;
    }

    method EffectiveConfig() returns (r: Result<Cfg>)
      ensures r == schema.parse(Merge(base, overlay))
    {
      var merged := DeepMerge(base, overlay);
      r := schema.parse(merged);
    }

    method Check(base: Json, overlay: Json) returns (r: Result<Cfg>)
      ensures r == Checked(schema, base, overlay)
      ensures IsVerdict(schema, base, overlay, r)
    {
      var merged := DeepMerge(base, overlay);
      r := schema.parse(merged);
      if r.Ok? {
        var errors := schema.validate(r.value);
        if errors != [] {
          r := Err(errors);
        }
      }
    }

    /** Write to a temporary file, sync it, rename it into place. */
    method Persist(doc: Json, fault: Fault) returns (ok: bool)
      modifies this`file, this`tmp
      ensures ok == fault.NoFault?
      ensures State() == Written(old(State()), doc, fault)
      ensures file == if ok then Holds(doc) else old(file)
    {
      if fault == AtCreate {
        return false;
      }
      tmp := Blank;
      if fault == AtWrite {
        tmp := Unparsable;
        return false;
      }
      tmp := Holds(doc);
      if fault == AtSync {
        return false;
      }
      if fault == AtRename {
        return false;
      }
      file, tmp := tmp, Missing;
      return true;
    }

    /** Dry run: nothing is written or committed. */
    method ValidatePatch(patch: Json) returns (r: Result<Cfg>)
      ensures r == Checked(schema, base, Merge(overlay, patch))
      ensures IsVerdict(schema, base, Merge(overlay, patch), r)
    {
      var candidate := DeepMerge(overlay, patch);
      r := Check(base, candidate);
    }

    method ApplyPatch(patch: Json, fault: Fault) returns (r: Result<Cfg>)
      modifies this
      ensures (State(), r) == Install(schema, old(State()), Merge(old(overlay), patch), fault)
      ensures base == old(base)
      ensures var candidate := Merge(old(overlay), patch);
              if IsValid(schema, base, candidate) && fault.NoFault? then
                r.Ok? && Yields(schema, base, candidate, r.value) && overlay == candidate && file == Holds(candidate)
              else
                && r.Err? && overlay == old(overlay) && file == old(file)
                && (!IsValid(schema, base, candidate) ==> IsVerdict(schema, base, candidate, r) && tmp == old(tmp))
    {
      var candidate := DeepMerge(overlay, patch);
      r := Check(base, candidate);
      if r.Ok? {
        var ok := Persist(candidate, fault);
        if ok {
          overlay := candidate;
        } else {
          r := Err(["overlay not written"]);
        }
      }
    }

    method ClearOverlay(fault: Fault) returns (r: Result<Cfg>)
      modifies this
      ensures (State(), r) == Install(schema, old(State()), EMPTY_OBJECT, fault)
      ensures base == old(base)
      ensures if IsValid(schema, base, Object(map[])) && fault.NoFault? then
                r.Ok? && Yields(schema, base, overlay, r.value) && overlay == Object(map[]) && file == Holds(overlay)
              else
                && r.Err? && overlay == old(overlay) && file == old(file)
                && (!IsValid(schema, base, Object(map[])) ==>
                     IsVerdict(schema, base, Object(map[]), r) && tmp == old(tmp))
    {
      r := Check(base, EMPTY_OBJECT);
      if r.Ok? {
        var ok := Persist(EMPTY_OBJECT, fault);
        if ok {
          overlay := EMPTY_OBJECT;
        } else {
          r := Err(["overlay not written"]);
        }
      }
    }

    method Reload(read: Result<Json>) returns (r: Result<Cfg>)
      modifies this`base
      ensures (State(), r) == ReloadBase(schema, old(State()), read)
      ensures overlay == old(overlay) && file == old(file) && tmp == old(tmp)
      ensures if read.Ok? && IsValid(schema, read.value, overlay) then
                r.Ok? && Yields(schema, read.value, overlay, r.value) && base == read.value
              else
                && r.Err? && base == old(base)
                && (read.Err? ==> r.reasons == read.reasons)
                && (read.Ok? ==> IsVerdict(schema, read.value, overlay, r))
    {
      if read.Err? {
        return Err(read.reasons);
      }
      r := Check(read.value, overlay);
      if r.Ok? {
        base := read.value;
      }
    }
  }

  /** `load`: both files are read and merged. The caller goes on only if the configuration is
      valid as well, which is when `Started` comes up. */
  method Load<Cfg>(schema: Schema<Cfg>, baseFile: Result<Json>, file: File, tmp: File, readable: bool)
    returns (r: Result<(ConfigStore<Cfg>, Cfg)>)
    ensures r.Ok? ==>
              && fresh(r.value.0) && r.value.0.schema == schema
              && Ok(r.value.0.base) == baseFile && Some(r.value.0.overlay) == LoadedOverlay(file, readable)
              && r.value.0.file == file && r.value.0.tmp == tmp
              && schema.parse(Merge(r.value.0.base, r.value.0.overlay)) == Ok(r.value.1)
    ensures baseFile.Err? ==> r.Err? && r.reasons == baseFile.reasons
    ensures baseFile.Ok? ==>
              var overlay := if readable && file.Holds? then file.doc else Object(map[]);
              if readable && file.Unparsable? then r.Err?
              else match schema.parse(Merge(baseFile.value, overlay))
                   case Err(reasons) => r == Err(reasons)
                   case Ok(cfg) => r.Ok? && r.value.1 == cfg && r.value.0.overlay == overlay
    ensures var sys := Started(schema, file, tmp, baseFile, readable);
            && (sys.Up? <==> r.Ok? && schema.validate(r.value.1) == [])
            && (sys.Up? ==> r.value.0.State() == sys.mem)
  {
    if baseFile.Err? {
      return Err(baseFile.reasons);
    }
    var overlay := EMPTY_OBJECT;
    if Reads(file, readable) {
      match file {
        case Holds(doc) => overlay := doc;
        case Unparsable => return Err(["overlay not parsed"]);
        case Missing =>
        case Blank =>
      }
    }
    var store := new ConfigStore(schema, baseFile.value, overlay, file, tmp);
    var effective := store.EffectiveConfig();
    if effective.Err? {
      return Err(effective.reasons);
    }
    return Ok((store, effective.value));
  }

  // ------------------------------------------------------------------- all runs

  /** A gateway process that is running, or is not; the base file is edited from outside. */
  datatype System =
    | Up(mem: Mem, baseFile: Result<Json>)
    | Down(file: File, tmp: File, baseFile: Result<Json>)

  /** A change of the overlay that is under way. */
  datatype Update = Patching(patch: Json) | Clearing

  datatype Op =
    | Apply(patch: Json, fault: Fault)
    | DryRun(patch: Json)
    | Clear(fault: Fault)
    | Reload
    | EditBase(contents: Result<Json>)
      // The process dies, possibly while writing the overlay for an update, at this point.
    | Crash(pending: Option<Update>, at: Fault)
      // Start-up, with the outcome of reading the overlay file.
    | Start(readable: bool)

  /** Start-up: both files are read, merged and validated, or the process exits. */
  function Started<Cfg>(schema: Schema<Cfg>, file: File, tmp: File, baseFile: Result<Json>, readable: bool): System {
    var overlay := LoadedOverlay(file, readable);
    if baseFile.Err? || overlay.None? then Down(file, tmp, baseFile)
    else if Checked(schema, baseFile.value, overlay.value).Err? then Down(file, tmp, baseFile)
    else Up(Mem(baseFile.value, overlay.value, file, tmp), baseFile)
  }

  /** The overlay an update is to put in force. */
  function Candidate(m: Mem, update: Update): Json {
    match update
    case Patching(patch) => Merge(m.overlay, patch)
    case Clearing => EMPTY_OBJECT
  }

  /** What the disk holds when the process dies. */
  function DiskAtCrash<Cfg>(schema: Schema<Cfg>, m: Mem, pending: Option<Update>, at: Fault): Mem {
    if pending.None? || Checked(schema, m.base, Candidate(m, pending.value)).Err? then m
    else Written(m, Candidate(m, pending.value), at)
  }

  function Next<Cfg>(schema: Schema<Cfg>, sys: System, op: Op): System {
    match sys
    case Down(file, tmp, baseFile) =>
      (match op
       case EditBase(contents) => Down(file, tmp, contents)
       case Start(readable) => Started(schema, file, tmp, baseFile, readable)
       case _ => sys)
    case Up(m, baseFile) =>
      (match op
       case Apply(patch, fault) => Up(Install(schema, m, Merge(m.overlay, patch), fault).0, baseFile)
       case DryRun(_) => sys
       case Clear(fault) => Up(Install(schema, m, EMPTY_OBJECT, fault).0, baseFile)
       case Reload => Up(ReloadBase(schema, m, baseFile).0, baseFile)
       case EditBase(contents) => Up(m, contents)
       case Crash(pending, at) => var d := DiskAtCrash(schema, m, pending, at); Down(d.file, d.tmp, baseFile)
       case Start(_) => sys)
  }

  function Exec<Cfg>(schema: Schema<Cfg>, sys: System, ops: seq<Op>): System {
    if ops == [] then sys
    else Next(schema, Exec(schema, sys, ops[..|ops| - 1]), ops[|ops| - 1])
  }

  /** The configuration in force is valid. */
  ghost predicate Good<Cfg>(schema: Schema<Cfg>, sys: System) {
    sys.Up? ==> IsValid(schema, sys.mem.base, sys.mem.overlay)
  }

  lemma {:induction false} CheckedIs<Cfg>(schema: Schema<Cfg>, base: Json, overlay: Json)
    ensures IsVerdict(schema, base, overlay, Checked(schema, base, overlay))
    ensures Checked(schema, base, overlay).Ok? <==> IsValid(schema, base, overlay)
  {
    var r := Checked(schema, base, overlay);
    if r.Ok? { assert Yields(schema, base, overlay, r.value); }
  }

  /** The overlay in memory is the one the overlay file stands for. */
  ghost predicate InStep(m: Mem) {
    OverlayOf(m.file) == Some(m.overlay)
  }

  /** A failing operation leaves memory and the overlay file as they were. */
  lemma {:induction false} FailureChangesNothing<Cfg>(schema: Schema<Cfg>, m: Mem, overlay: Json, fault: Fault)
    ensures var (m', r) := Install(schema, m, overlay, fault);
            && (r.Err? ==> m'.base == m.base && m'.overlay == m.overlay && m'.file == m.file)
            && (r.Ok? ==> m'.base == m.base && m'.overlay == overlay && m'.file == Holds(overlay)
                          && r == Checked(schema, m'.base, m'.overlay))
            && (r.Ok? <==> Checked(schema, m.base, overlay).Ok? && fault.NoFault?)
  {}

  lemma {:induction false} StepKeeps<Cfg>(schema: Schema<Cfg>, sys: System, op: Op)
    requires Good(schema, sys)
    ensures Good(schema, Next(schema, sys, op))
  {
    if sys.Up? {
      match op
      case Apply(patch, fault) => FailureChangesNothing(schema, sys.mem, Merge(sys.mem.overlay, patch), fault);
      case Clear(fault) => FailureChangesNothing(schema, sys.mem, EMPTY_OBJECT, fault);
      case _ =>
    }
    var sys' := Next(schema, sys, op);
    if sys'.Up? { CheckedIs(schema, sys'.mem.base, sys'.mem.overlay); }
    if sys.Up? { CheckedIs(schema, sys.mem.base, sys.mem.overlay); }
  }

  /** What the operations of a running gateway achieve: a valid patch or clear that can be written
      is in force and on disk, a valid edit of the base file is in force after a reload, and a
      dry run does nothing. */
  lemma {:induction false} OperationsTakeEffect<Cfg>(schema: Schema<Cfg>, sys: System, patch: Json, base: Json)
    requires sys.Up?
    ensures var candidate := Merge(sys.mem.overlay, patch);
            IsValid(schema, sys.mem.base, candidate) ==>
              Next(schema, sys, Apply(patch, NoFault))
              == Up(Mem(sys.mem.base, candidate, Holds(candidate), Missing), sys.baseFile)
    ensures IsValid(schema, sys.mem.base, Object(map[])) ==>
              Next(schema, sys, Clear(NoFault))
              == Up(Mem(sys.mem.base, Object(map[]), Holds(Object(map[])), Missing), sys.baseFile)
    ensures IsValid(schema, base, sys.mem.overlay) ==>
              Exec(schema, sys, [EditBase(Ok(base)), Reload]) == Up(sys.mem.(base := base), Ok(base))
    ensures Next(schema, sys, DryRun(patch)) == sys
  {
    CheckedIs(schema, sys.mem.base, Merge(sys.mem.overlay, patch));
    CheckedIs(schema, sys.mem.base, Object(map[]));
    CheckedIs(schema, base, sys.mem.overlay);
    var e := EditBase(Ok(base));
    assert [e, Reload][..1] == [e] && [e][..0] == [];
    assert Exec(schema, sys, [e]) == Next(schema, sys, e);
  }

  /** Whatever the disk holds at first and whatever fails on the way, a running gateway has a
      valid configuration. */
  lemma {:induction false} AlwaysValid<Cfg>(schema: Schema<Cfg>, sys: System, ops: seq<Op>)
    requires sys.Down?
    ensures Good(schema, Exec(schema, sys, ops))
  {
    if ops != [] {
      var n := |ops| - 1;
      AlwaysValid(schema, sys, ops[..n]);
      StepKeeps(schema, Exec(schema, sys, ops[..n]), ops[n]);
    }
  }

  // ------------------------------------------------------- memory and disk in step

  /** The system after the first `k` operations. */
  ghost function After<Cfg>(schema: Schema<Cfg>, sys: System, ops: seq<Op>, k: nat): System
    requires k <= |ops|
  {
    Exec(schema, sys, ops[..k])
  }

  /** Operation `i` is the start-up of the process that is still running at the end. */
  ghost predicate LastStart<Cfg>(schema: Schema<Cfg>, sys: System, ops: seq<Op>, i: nat) {
    && i < |ops| && ops[i].Start? && After(schema, sys, ops, i).Down?
    && forall k :: i < k <= |ops| ==> After(schema, sys, ops, k).Up?
  }

  /** The operation puts a new overlay on disk and in memory. */
  predicate Writes<Cfg>(schema: Schema<Cfg>, sys: System, op: Op) {
    sys.Up? &&
    match op
    case Apply(patch, fault) => Install(schema, sys.mem, Merge(sys.mem.overlay, patch), fault).1.Ok?
    case Clear(fault) => Install(schema, sys.mem, EMPTY_OBJECT, fault).1.Ok?
    case _ => false
  }

  /** The process that was started by operation `i` began in step with the disk: it could read
      the overlay file, or the file stands for the empty overlay anyway. */
  ghost predicate BeganInStep<Cfg>(schema: Schema<Cfg>, sys: System, ops: seq<Op>, i: nat)
    requires LastStart(schema, sys, ops, i)
  {
    var file := After(schema, sys, ops, i).file;
    Reads(file, ops[i].readable) || OverlayOf(file) == Some(EMPTY_OBJECT)
  }

  ghost predicate WritesAt<Cfg>(schema: Schema<Cfg>, sys: System, ops: seq<Op>, k: nat)
    requires k < |ops|
  {
    Writes(schema, After(schema, sys, ops, k), ops[k])
  }

  ghost predicate WroteSince<Cfg>(schema: Schema<Cfg>, sys: System, ops: seq<Op>, i: nat) {
    exists k :: i < k < |ops| && WritesAt(schema, sys, ops, k)
  }

  /** A running process gets in step by writing, and in no other way gets in or out of step. */
  lemma {:induction false} StepInStep<Cfg>(schema: Schema<Cfg>, sys: System, op: Op)
    requires sys.Up? && Next(schema, sys, op).Up?
    ensures InStep(Next(schema, sys, op).mem) <==> InStep(sys.mem) || Writes(schema, sys, op)
  {
    match op
    case Apply(patch, fault) => FailureChangesNothing(schema, sys.mem, Merge(sys.mem.overlay, patch), fault);
    case Clear(fault) => FailureChangesNothing(schema, sys.mem, EMPTY_OBJECT, fault);
    case _ =>
  }

  lemma {:induction false} StartInStep<Cfg>(schema: Schema<Cfg>, sys: System, readable: bool)
    requires sys.Down? && Next(schema, sys, Start(readable)).Up?
    ensures InStep(Next(schema, sys, Start(readable)).mem)
            <==> Reads(sys.file, readable) || OverlayOf(sys.file) == Some(EMPTY_OBJECT)
  {}

  /** The history of a run is that of its beginning, and its last operation. */
  lemma {:induction false} AfterInit<Cfg>(schema: Schema<Cfg>, sys: System, ops: seq<Op>, k: nat)
    requires k < |ops|
    ensures After(schema, sys, ops[..|ops| - 1], k) == After(schema, sys, ops, k)
    ensures After(schema, sys, ops, k + 1) == Next(schema, After(schema, sys, ops, k), ops[k])
  {
    assert ops[..|ops| - 1][..k] == ops[..k] && ops[..k + 1][..k] == ops[..k];
  }

  lemma {:induction false} LastStartInit<Cfg>(schema: Schema<Cfg>, sys: System, ops: seq<Op>, i: nat)
    requires ops != [] && LastStart(schema, sys, ops[..|ops| - 1], i)
    requires Exec(schema, sys, ops).Up?
    ensures LastStart(schema, sys, ops, i)
    ensures BeganInStep(schema, sys, ops, i) <==> BeganInStep(schema, sys, ops[..|ops| - 1], i)
  {
    var init := ops[..|ops| - 1];
    AfterInit(schema, sys, ops, i);
    forall k | i < k <= |ops| ensures After(schema, sys, ops, k).Up? {
      if k < |ops| {
        AfterInit(schema, sys, ops, k);
        assert After(schema, sys, init, k).Up?;
      } else {
        assert ops[..k] == ops;
      }
    }
  }

  lemma {:induction false} WroteSinceInit<Cfg>(schema: Schema<Cfg>, sys: System, ops: seq<Op>, i: nat)
    requires i < |ops| - 1
    ensures WroteSince(schema, sys, ops, i) <==>
              WroteSince(schema, sys, ops[..|ops| - 1], i)
              || Writes(schema, Exec(schema, sys, ops[..|ops| - 1]), ops[|ops| - 1])
  {
    var n := |ops| - 1;
    var init := ops[..n];
    if k :| i < k < n && WritesAt(schema, sys, init, k) {
      AfterInit(schema, sys, ops, k);
      assert WritesAt(schema, sys, ops, k);
    }
    if k :| i < k < |ops| && WritesAt(schema, sys, ops, k) {
      AfterInit(schema, sys, ops, k);
      if k < n { assert WritesAt(schema, sys, init, k); }
    }
    if Writes(schema, Exec(schema, sys, init), ops[n]) {
      assert WritesAt(schema, sys, ops, n);
    }
  }

  /** Over every run with any failures: memory and disk hold the same overlay exactly when the
      running process could read the overlay file at its start, or that file stood for the
      empty overlay, or an update has succeeded since. */
  lemma {:induction false} InStepExactly<Cfg>(schema: Schema<Cfg>, sys: System, ops: seq<Op>) returns (i: nat)
    requires sys.Down? && Exec(schema, sys, ops).Up?
    ensures LastStart(schema, sys, ops, i)
    ensures InStep(Exec(schema, sys, ops).mem) <==>
              BeganInStep(schema, sys, ops, i) || WroteSince(schema, sys, ops, i)
  {
    var n := |ops| - 1;
    var before, op := Exec(schema, sys, ops[..n]), ops[n];
    AfterInit(schema, sys, ops, n);
    assert ops[..|ops|] == ops;
    if before.Up? {
      i := InStepExactly(schema, sys, ops[..n]);
      LastStartInit(schema, sys, ops, i);
      WroteSinceInit(schema, sys, ops, i);
      StepInStep(schema, before, op);
    } else {
      i := n;
      StartInStep(schema, before, op.readable);
    }
  }

  /** An overlay file that stands for something is never replaced by one that does not. */
  lemma {:induction false} FileStaysText<Cfg>(schema: Schema<Cfg>, sys: System, ops: seq<Op>)
    requires sys.Down? && sys.file != NotText
    ensures var end := Exec(schema, sys, ops); (if end.Up? then end.mem.file else end.file) != NotText
  {
    if ops != [] { FileStaysText(schema, sys, ops[..|ops| - 1]); }
  }

  /** As long as every start-up can read the overlay file, memory and disk stay in step. */
  lemma {:induction false} ReadableStaysInStep<Cfg>(schema: Schema<Cfg>, sys: System, ops: seq<Op>)
    requires sys.Down? && sys.file != NotText && Exec(schema, sys, ops).Up?
    requires forall k :: 0 <= k < |ops| && ops[k].Start? ==> ops[k].readable
    ensures InStep(Exec(schema, sys, ops).mem)
  {
    var i := InStepExactly(schema, sys, ops);
    FileStaysText(schema, sys, ops[..i]);
  }

  /** A start-up that cannot read the overlay file runs without the overlay, and the next patch
      overwrites what the file held. */
  lemma {:induction false} UnreadableForgets<Cfg>(schema: Schema<Cfg>, base: Json, doc: Json, tmp: File)
    requires IsValid(schema, base, EMPTY_OBJECT) && doc != EMPTY_OBJECT
    ensures var up := Exec(schema, Down(Holds(doc), tmp, Ok(base)), [Start(false)]);
            up.Up? && up.mem.overlay == EMPTY_OBJECT && up.mem.file == Holds(doc) && !InStep(up.mem)
    ensures var later := Exec(schema, Down(Holds(doc), tmp, Ok(base)), [Start(false), Apply(EMPTY_OBJECT, NoFault)]);
            later.Up? && later.mem.file == Holds(EMPTY_OBJECT)
  {
    CheckedIs(schema, base, EMPTY_OBJECT);
    var down := Down(Holds(doc), tmp, Ok(base));
    var s, a := Start(false), Apply(EMPTY_OBJECT, NoFault);
    assert [s, a][..1] == [s] && [s][..0] == [];
    assert Exec(schema, down, [s]) == Next(schema, down, s);
    assert Merge(EMPTY_OBJECT, EMPTY_OBJECT) == EMPTY_OBJECT;
  }

  // ---------------------------------------------------------------------- restarts

  lemma {:induction false} CrashAndStart<Cfg>(schema: Schema<Cfg>, sys: System, pending: Option<Update>, at: Fault, readable: bool)
    requires sys.Up?
    ensures var d := DiskAtCrash(schema, sys.mem, pending, at);
            Exec(schema, sys, [Crash(pending, at), Start(readable)])
            == Started(schema, d.file, d.tmp, sys.baseFile, readable)
  {
    var c, s := Crash(pending, at), Start(readable);
    assert [c, s][..1] == [c] && [c][..0] == [];
    assert Exec(schema, sys, [c]) == Next(schema, sys, c);
  }

  /** With a base file as last read, a restart reproduces the state exactly when memory is in
      step with a readable overlay file, or there is no overlay in force to be forgotten. */
  lemma {:induction false} RestartReproduces<Cfg>(schema: Schema<Cfg>, sys: System, ops: seq<Op>, readable: bool)
    requires sys.Down?
    requires var now := Exec(schema, sys, ops); now.Up? && now.baseFile == Ok(now.mem.base)
    ensures var now := Exec(schema, sys, ops);
            Exec(schema, now, [Crash(None, NoFault), Start(readable)]) == now <==>
            if Reads(now.mem.file, readable) then InStep(now.mem) else now.mem.overlay == EMPTY_OBJECT
  {
    AlwaysValid(schema, sys, ops);
    CrashAndStart(schema, Exec(schema, sys, ops), None, NoFault, readable);
  }

  /** Dying at any point of a patch or a clear leaves the old or the new overlay on disk. A
      restart that can read it comes up with it; one that cannot comes up without an overlay,
      if the base alone is valid, and not at all otherwise. */
  lemma {:induction false} CrashIsAtomic<Cfg>(schema: Schema<Cfg>, sys: System, update: Update, at: Fault, readable: bool)
    requires sys.Up? && Good(schema, sys) && InStep(sys.mem) && sys.baseFile == Ok(sys.mem.base)
    ensures var d := DiskAtCrash(schema, sys.mem, Some(update), at);
            OverlayOf(d.file) == Some(sys.mem.overlay) || OverlayOf(d.file) == Some(Candidate(sys.mem, update))
    ensures var back := Exec(schema, sys, [Crash(Some(update), at), Start(readable)]);
            && (back.Up? ==> back.mem.base == sys.mem.base && Good(schema, back))
            && (readable ==>
                 && back.Up? && InStep(back.mem)
                 && (back.mem.overlay == sys.mem.overlay || back.mem.overlay == Candidate(sys.mem, update)))
            && (!readable ==>
                 && (back.Up? <==> IsValid(schema, sys.mem.base, EMPTY_OBJECT))
                 && (back.Up? ==> back.mem.overlay == EMPTY_OBJECT))
  {
    CheckedIs(schema, sys.mem.base, EMPTY_OBJECT);
    CheckedIs(schema, sys.mem.base, sys.mem.overlay);
    CheckedIs(schema, sys.mem.base, Candidate(sys.mem, update));
    CrashAndStart(schema, sys, Some(update), at, readable);
  }
}
