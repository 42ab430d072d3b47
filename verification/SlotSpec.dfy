/** Application/UefiAvb/libavb/avb_slot_verify.c as functions: a device that answers reads, the
    walk over the descriptors of a vbmeta image, and the slot data that it fills. The images come
    with their descriptors already extracted; hashes and signatures are answers of the device. */
module SlotSpec {
  import opened Bytes
  import opened AvbTypes

  const VBMETA_MAX_SIZE := 65536
  const PART_NAME_MAX_SIZE := 32
  const MAX_VBMETA_IMAGES := 32
  const MAX_LOADED_PARTITIONS := 32
  const MAX_CMDLINE_SUBST := 10

  // ----- vbmeta images

  datatype Verdict = ImageOk | NotSigned | HashMismatch | SignatureMismatch | InvalidHeader | UnsupportedVersion

  datatype Algorithm = Sha1 | Sha256 | Sha512 | OtherAlgorithm

  // A descriptor after extraction; `valid` is what its own byteswap function answers. The name
  // of a chain descriptor is not terminated: text is the memory from its first byte on, and a
  // valid descriptor has nameLen <= |text|.
  datatype Descriptor =
    | Malformed
    | HashDesc(valid: bool, name: string, noAb: bool, imageSize: u64, algorithm: Algorithm, salt: string, digest: string)
    | ChainDesc(valid: bool, location: nat, text: string, nameLen: nat, key: string)
    | CmdlineDesc(valid: bool, line: string, unlessDisabled: bool, onlyDisabled: bool)
    | HashtreeDesc(valid: bool, name: string, noAb: bool, algorithm: Algorithm, rootDigestLen: nat)
    | PropertyDesc

  // key is the public key that signed the image; it is known only when the verdict is ImageOk.
  datatype Vbmeta = Vbmeta(verdict: Verdict, key: string, flags: nat, rollbackIndex: u64, descriptors: seq<Descriptor>)

  predicate HashtreeDisabled(flags: nat) { flags % 2 == 1 }

  predicate VerificationDisabled(flags: nat) { flags / 2 % 2 == 1 }

  // ----- the device

  datatype Read<+T> = Got(value: T) | NoMemory | NoSuchPartition | ReadFailed

  datatype PersistentCode = PersistentOk | PersistentOom | NoSuchValue | WrongSize | PersistentFailed

  datatype Footer = Footer(vbmetaOffset: u64, vbmetaSize: u64)

  datatype Preloaded = Preloaded(buffer: Option<string>, numRead: nat)

  datatype PersistentRead = PersistentRead(code: PersistentCode, digest: string, storedSize: nat)

  // The operations and the pure computations on bytes. An operation that may be left
  // unimplemented is an Option.
  datatype Ops = Ops(
    utf8: string -> bool,
    footer: string -> Read<Option<Footer>>,
    vbmeta: (string, u64, u64) -> Read<Vbmeta>,
    keyTrusted: Vbmeta -> Read<bool>,
    rollback: nat -> Read<u64>,
    sizeOf: Option<string -> Read<u64>>,
    preloaded: Option<(string, u64) -> Read<Preloaded>>,
    read: (string, u64) -> Read<string>,
    persistent: Option<(string, nat) -> PersistentRead>,
    digest: (Algorithm, string) -> string,
    unlocked: Read<bool>,
    substitute: string -> Option<string>)

  // The arguments that stay the same throughout one verification.
  datatype Config = Config(ops: Ops, requested: seq<string>, suffix: string, allow: bool)

  // ----- the slot data

  datatype Image = Image(name: string, vbmeta: Vbmeta, verifyResult: Verdict)

  datatype Loaded = Loaded(name: string, data: string)

  // entries are the rollback indexes in the order in which they are recorded.
  datatype Data = Data(images: seq<Image>, loaded: seq<Loaded>, cmdline: Option<string>,
                       entries: seq<RollbackEntry>, substs: nat)

  // ----- loading

  function IoCode<T>(r: Read<T>): VerifyResult {
    match r
    case Got(_) => VerifyOk
    case NoMemory => VerifyOom
    case _ => VerifyIo
  }

  // avb_str_concat into a part_name buffer
  function Suffixed(name: string, suffix: string): Option<string> {
    if |name| + |suffix| > PART_NAME_MAX_SIZE - 1 then None else Some(name + suffix)
  }

  function ReadWhole(c: Config, part: string, size: u64): (VerifyResult, string) {
    match c.ops.read(part, size)
    case Got(data) => if |data| != size then (VerifyIo, "") else (VerifyOk, data)
    case failed => (IoCode(failed), "")
  }

  // load_full_partition
  function LoadFull(c: Config, part: string, size: u64): (VerifyResult, string) {
    if c.ops.preloaded.None? then ReadWhole(c, part, size)
    else
      match c.ops.preloaded.value(part, size)
      case Got(p) =>
        if p.buffer.None? then ReadWhole(c, part, size)
        else if p.numRead != size then (VerifyIo, "")
        else (VerifyOk, p.buffer.value)
      case failed => (IoCode(failed), "")
  }

  // read_persistent_digest; the size is compared before the remaining error codes are.
  function ReadPersistent(c: Config, part: string, size: nat): (VerifyResult, string) {
    if c.ops.persistent.None? then (VerifyInvalidMetadata, "")
    else
      var p := c.ops.persistent.value(part, size);
      match p.code
      case PersistentOom => (VerifyOom, "")
      case NoSuchValue | WrongSize => (VerifyInvalidMetadata, "")
      case PersistentOk => if p.storedSize != size then (VerifyInvalidMetadata, "") else (VerifyOk, p.digest)
      case PersistentFailed => if p.storedSize != size then (VerifyInvalidMetadata, "") else (VerifyIo, "")
  }

  // ----- hash descriptors

  function DigestLength(a: Algorithm): nat {
    match a case Sha1 => 20 case Sha256 => 32 case Sha512 => 64 case OtherAlgorithm => 0
  }

  // The partition that a hash descriptor speaks of.
  function HashPartName(c: Config, h: Descriptor): Option<string>
    requires h.HashDesc?
  {
    if h.noAb then (if |h.name| >= PART_NAME_MAX_SIZE then None else Some(h.name))
    else if h.digest == "" && c.suffix != "" then None
    else Suffixed(h.name, c.suffix)
  }

  // How much is loaded: the whole partition when verification errors are allowed.
  function HashLoadSize(c: Config, h: Descriptor, part: string): Read<u64>
    requires h.HashDesc?
  {
    if c.allow && c.ops.sizeOf.Some? then c.ops.sizeOf.value(part) else Got(h.imageSize)
  }

  // What is hashed: the salt and as many bytes as the descriptor says, counted in 32 bits.
  function Hashed(h: Descriptor, data: string): string
    requires h.HashDesc?
  {
    var n := h.imageSize % 0x1_0000_0000;
    h.salt + (if n <= |data| then data[..n] else data)
  }

  function ExpectedDigest(c: Config, h: Descriptor, part: string): (VerifyResult, string)
    requires h.HashDesc?
  {
    if h.digest == "" then ReadPersistent(c, part, DigestLength(h.algorithm)) else (VerifyOk, h.digest)
  }

  // The comparison of a loaded image with its descriptor.
  function CompareDigest(c: Config, h: Descriptor, part: string, data: string): VerifyResult
    requires h.HashDesc?
  {
    if h.algorithm != Sha256 && h.algorithm != Sha512 then VerifyInvalidMetadata
    else
      var expected := ExpectedDigest(c, h, part);
      if expected.0 != VerifyOk then expected.0
      else if h.digest != "" && |h.digest| != DigestLength(h.algorithm) then VerifyInvalidMetadata
      else if c.ops.digest(h.algorithm, Hashed(h, data)) != expected.1 then VerifyVerification
      else VerifyOk
  }

  // load_and_verify_hash_partition up to its label `out`: the result, and the buffer when one
  // was filled.
  function HashCheck(c: Config, h: Descriptor): (VerifyResult, Option<string>)
    requires h.HashDesc?
  {
    if !h.valid || !c.ops.utf8(h.name) then (VerifyInvalidMetadata, None)
    else if h.name !in c.requested then (VerifyOk, None)
    else
      var part := HashPartName(c, h);
      if part.None? then (VerifyInvalidMetadata, None)
      else
        match HashLoadSize(c, h, part.value)
        case Got(size) =>
          var image := LoadFull(c, part.value, size);
          if image.0 != VerifyOk then (image.0, None)
          else (CompareDigest(c, h, part.value, image.1), Some(image.1))
        case failed => (IoCode(failed), None)
  }

  function HashPartition(c: Config, h: Descriptor, d: Data): (VerifyResult, Data)
    requires h.HashDesc?
  {
    var (ret, buffer) := HashCheck(c, h);
    if !ShouldContinue(ret) || buffer.None? then (ret, d)
    else if |d.loaded| == MAX_LOADED_PARTITIONS then (VerifyOom, d)
    else (ret, d.(loaded := d.loaded + [Loaded(h.name, buffer.value)]))
  }

  // load_requested_partitions from index n on
  function LoadRequested(c: Config, n: nat, d: Data): (VerifyResult, Data)
    requires n <= |c.requested|
    decreases |c.requested| - n
  {
    if c.ops.sizeOf.None? then (VerifyInvalidArgument, d)
    else if n == |c.requested| then (VerifyOk, d)
    else
      var one := LoadOne(c, c.requested[n], d);
      if one.0 != VerifyOk then one else LoadRequested(c, n + 1, one.1)
  }

  function LoadOne(c: Config, name: string, d: Data): (VerifyResult, Data)
    requires c.ops.sizeOf.Some?
  {
    var part := Suffixed(name, c.suffix);
    if part.None? then (VerifyInvalidMetadata, d)
    else
      match c.ops.sizeOf.value(part.value)
      case Got(size) =>
        var image := LoadFull(c, part.value, size);
        if image.0 != VerifyOk then (image.0, d)
        else if |d.loaded| == MAX_LOADED_PARTITIONS then (VerifyOom, d)
        else (VerifyOk, d.(loaded := d.loaded + [Loaded(name, image.1)]))
      case failed => (IoCode(failed), d)
  }

  // ----- finding and checking one image

  // The C string at the start of a piece of memory.
  function CString(text: string): string {
    if text == "" || text[0] == '\0' then "" else [text[0]] + CString(text[1..])
  }

  datatype Found = FoundImage(vbmeta: Vbmeta) | TryBoot | NotFound(ret: VerifyResult)

  // Lines 509-617: where the image is, and the image.
  function Find(c: Config, location: nat, name: string, isVbmeta: bool): Found {
    var full := Suffixed(name, c.suffix);
    if full.None? then NotFound(VerifyInvalidMetadata)
    else if isVbmeta then
      var image := c.ops.vbmeta(full.value, 0, VBMETA_MAX_SIZE);
      if image.NoSuchPartition? && location == 0 then TryBoot else FromRead(image)
    else
      match c.ops.footer(full.value)
      case Got(footer) =>
        if footer.None? || footer.value.vbmetaSize > VBMETA_MAX_SIZE then NotFound(VerifyInvalidMetadata)
        else FromRead(c.ops.vbmeta(full.value, footer.value.vbmetaOffset, footer.value.vbmetaSize))
      case failed => NotFound(IoCode(failed))
  }

  function FromRead(image: Read<Vbmeta>): Found {
    if image.Got? then FoundImage(image.value) else NotFound(IoCode(image))
  }

  // Either the function returns, or it goes on with the given `ret`.
  datatype Step = Stop(ret: VerifyResult) | Continue(ret: VerifyResult)

  function Flag(c: Config, error: VerifyResult): Step {
    if c.allow then Continue(error) else Stop(error)
  }

  // Lines 624-658.
  function CheckVerdict(c: Config, v: Vbmeta): Step {
    match v.verdict
    case ImageOk => Continue(VerifyOk)
    case NotSigned | HashMismatch | SignatureMismatch => Flag(c, VerifyVerification)
    case InvalidHeader => Stop(VerifyInvalidMetadata)
    case UnsupportedVersion => Stop(VerifyUnsupportedVersion)
  }

  // Lines 677-727: the key that signed the image, if there is one.
  function CheckKey(c: Config, key: Option<string>, v: Vbmeta, ret: VerifyResult): Step {
    if v.verdict != ImageOk then Continue(ret)
    else if key.Some? then
      if key.value == v.key then Continue(ret) else Flag(c, VerifyKeyRejected)
    else
      match c.ops.keyTrusted(v)
      case Got(trusted) => if trusted then Continue(ret) else Flag(c, VerifyKeyRejected)
      case failed => Stop(IoCode(failed))
  }

  // Lines 729-751.
  function CheckRollback(c: Config, location: nat, v: Vbmeta, ret: VerifyResult): Step {
    match c.ops.rollback(location)
    case Got(stored) => if v.rollbackIndex < stored then Flag(c, VerifyRollbackIndex) else Continue(ret)
    case failed => Stop(IoCode(failed))
  }

  // Lines 618-751.
  function Check(c: Config, location: nat, key: Option<string>, v: Vbmeta): Step {
    var verdict := CheckVerdict(c, v);
    if verdict.Stop? then verdict
    else if location != 0 && v.flags != 0 then Stop(VerifyInvalidMetadata)
    else
      var signer := CheckKey(c, key, v, verdict.ret);
      if signer.Stop? then signer else CheckRollback(c, location, v, signer.ret)
  }

  // ----- the remaining descriptors

  // Lines 931-941.
  predicate AppliesTo(desc: Descriptor, top: nat)
    requires desc.CmdlineDesc?
  {
    if HashtreeDisabled(top) then !desc.unlessDisabled else !desc.onlyDisabled
  }

  function AddLine(d: Data, line: string): Data {
    d.(cmdline := Some(if d.cmdline.None? then line else d.cmdline.value + " " + line))
  }

  // Lines 991-1056, for a descriptor without root digest.
  function RootDigest(c: Config, desc: Descriptor, collect: bool, d: Data): (VerifyResult, Data)
    requires desc.HashtreeDesc?
  {
    if !c.ops.utf8(desc.name) || (!desc.noAb && c.suffix != "") || |desc.name| >= PART_NAME_MAX_SIZE
       || desc.algorithm == OtherAlgorithm then (VerifyInvalidMetadata, d)
    else
      var digest := ReadPersistent(c, desc.name, DigestLength(desc.algorithm));
      if digest.0 != VerifyOk || !collect then (digest.0, d)
      else if d.substs >= MAX_CMDLINE_SUBST then (VerifyInvalidMetadata, d)
      else (VerifyOk, d.(substs := d.substs + 1))
  }

  predicate Persistent(desc: Descriptor) {
    desc.HashtreeDesc? && desc.valid && desc.rootDigestLen == 0
  }

  // ----- one image and everything below it

  predicate IsVbmeta(text: string) { CString(text) == "vbmeta" }

  function Rank(location: nat, text: string): nat {
    if location != 0 then 0 else if IsVbmeta(text) then 2 else 1
  }

  // load_and_verify_vbmeta. The name is text[..nameLen].
  function LoadVbmeta(c: Config, top: nat, location: nat, text: string, nameLen: nat, key: Option<string>, d: Data)
    : (VerifyResult, Data)
    requires nameLen <= |text|
    decreases Rank(location, text), 1, 0
  {
    if !c.ops.utf8(text[..nameLen]) then (VerifyInvalidMetadata, d)
    else
      match Find(c, location, text[..nameLen], IsVbmeta(text))
      case NotFound(ret) => (ret, d)
      case TryBoot => LoadVbmeta(c, 0, 0, "boot", 4, None, d)
      case FoundImage(v) =>
        match Check(c, location, key, v)
        case Stop(ret) => (ret, d)
        case Continue(ret) =>
          if |d.images| == MAX_VBMETA_IMAGES then (VerifyOom, d)
          else
            var d1 := d.(images := d.images + [Image(CString(text), v, v.verdict)]);
            if VerificationDisabled(v.flags) then
              var sub := LoadRequested(c, 0, d1);
              (if sub.0 != VerifyOk then sub.0 else ret, sub.1)
            else
              var walked := Walk(c, if location == 0 then v.flags else top, location, v, 0, ret, d1);
              if walked.0.Stop? then (walked.0.ret, walked.1) else Record(walked.1, location, v, walked.0.ret)
  }

  // Lines 1065-1073.
  function Record(d: Data, location: nat, v: Vbmeta, ret: VerifyResult): (VerifyResult, Data) {
    if location >= MAX_ROLLBACK_LOCATIONS then (VerifyInvalidMetadata, d)
    else (ret, d.(entries := d.entries + [RollbackEntry(location, v.rollbackIndex)]))
  }

  // The loop over the descriptors from index n on, with `ret` as it stands there.
  function Walk(c: Config, top: nat, location: nat, v: Vbmeta, n: nat, ret: VerifyResult, d: Data): (Step, Data)
    requires n <= |v.descriptors|
    decreases if location == 0 then 1 else 0, 0, |v.descriptors| - n
  {
    if n == |v.descriptors| then (Continue(ret), d)
    else
      var one := Visit(c, top, location, v.descriptors[n], ret, d);
      if one.0.Stop? then one else Walk(c, top, location, v, n + 1, one.0.ret, one.1)
  }

  // One turn of the loop.
  function Visit(c: Config, top: nat, location: nat, desc: Descriptor, ret: VerifyResult, d: Data): (Step, Data)
    decreases if location == 0 then 1 else 0, 0, 0
  {
    match desc
    case Malformed => (Stop(VerifyInvalidMetadata), d)
    case HashDesc(_, _, _, _, _, _, _) =>
      var sub := HashPartition(c, desc, d);
      if sub.0 == VerifyOk then (Continue(ret), sub.1)
      else if !c.allow || !ShouldContinue(sub.0) then (Stop(sub.0), sub.1)
      else (Continue(sub.0), sub.1)
    case ChainDesc(valid, chained, text, nameLen, key) =>
      if location != 0 || !valid || chained == 0 || nameLen > |text| then (Stop(VerifyInvalidMetadata), d)
      else
        var sub := LoadVbmeta(c, top, chained, text, nameLen, Some(key), d);
        if sub.0 == VerifyOk then (Continue(ret), sub.1)
        else if !ShouldContinue(sub.0) then (Stop(sub.0), sub.1)
        else (Continue(sub.0), sub.1)
    case CmdlineDesc(valid, line, _, _) =>
      if !valid || !c.ops.utf8(line) then (Stop(VerifyInvalidMetadata), d)
      else (Continue(ret), if AppliesTo(desc, top) then AddLine(d, line) else d)
    case HashtreeDesc(valid, _, _, _, rootDigestLen) =>
      if !valid then (Stop(VerifyInvalidMetadata), d)
      else if rootDigestLen != 0 then (Continue(ret), d)
      else
        // Line 1041 assigns `ret`, whatever it was.
        var sub := RootDigest(c, desc, location == 0, d);
        if sub.0 != VerifyOk then (Stop(sub.0), sub.1) else (Continue(VerifyOk), sub.1)
    case PropertyDesc => (Continue(ret), d)
  }

  // ----- avb_slot_verify

  function EmptyData(): Data { Data([], [], None, [], 0) }

  // Lines 1175-1249: the result of the verification, finished into what the caller gets.
  function Finish(c: Config, ret: VerifyResult, d: Data): (r: (VerifyResult, Option<Data>))
    requires d.images != []
  {
    var finished: (VerifyResult, string) :=
      if VerificationDisabled(d.images[0].vbmeta.flags) then (VerifyOk, "root=PARTUUID=$(ANDROID_SYSTEM_PARTUUID)")
      else (IoCode(c.ops.unlocked), if d.cmdline.None? then "" else d.cmdline.value);
    if finished.0 != VerifyOk then (finished.0, None)
    else
      match c.ops.substitute(finished.1)
      case None => (VerifyOom, None)
      case Some(line) => (ret, Some(d.(cmdline := Some(line))))
  }

  // Nothing that was recorded is taken back.
  predicate Extends(d: Data, d': Data) {
    d.images <= d'.images && d.loaded <= d'.loaded && d.entries <= d'.entries
  }

  lemma LoadRequestedExtends(c: Config, n: nat, d: Data)
    requires n <= |c.requested|
    ensures Extends(d, LoadRequested(c, n, d).1)
    ensures LoadRequested(c, n, d).1.images == d.images && LoadRequested(c, n, d).1.entries == d.entries
    ensures LoadRequested(c, n, d).1.cmdline == d.cmdline
    decreases |c.requested| - n
  {
    if c.ops.sizeOf.Some? && n < |c.requested| {
      var one := LoadOne(c, c.requested[n], d);
      if one.0 == VerifyOk {
        LoadRequestedExtends(c, n + 1, one.1);
      }
    }
  }

  lemma {:induction false} VbmetaExtends(c: Config, top: nat, location: nat, text: string, nameLen: nat, key: Option<string>, d: Data)
    requires nameLen <= |text|
    ensures Extends(d, LoadVbmeta(c, top, location, text, nameLen, key, d).1)
    decreases Rank(location, text), 1, 0
  {
    if c.ops.utf8(text[..nameLen]) {
      var found := Find(c, location, text[..nameLen], IsVbmeta(text));
      if found.TryBoot? {
        assert !IsVbmeta("boot") by { assert "boot"[0] == 'b'; }
        VbmetaExtends(c, 0, 0, "boot", 4, None, d);
      } else if found.FoundImage? {
        var v := found.vbmeta;
        var check := Check(c, location, key, v);
        var d1 := d.(images := d.images + [Image(CString(text), v, v.verdict)]);
        if check.Continue? && |d.images| != MAX_VBMETA_IMAGES {
          if VerificationDisabled(v.flags) {
            LoadRequestedExtends(c, 0, d1);
          } else {
            WalkExtends(c, if location == 0 then v.flags else top, location, v, 0, check.ret, d1);
          }
        }
      }
    }
  }

  lemma {:induction false} WalkExtends(c: Config, top: nat, location: nat, v: Vbmeta, n: nat, ret: VerifyResult, d: Data)
    requires n <= |v.descriptors|
    ensures Extends(d, Walk(c, top, location, v, n, ret, d).1)
    decreases if location == 0 then 1 else 0, 0, |v.descriptors| - n
  {
    if n < |v.descriptors| {
      var desc := v.descriptors[n];
      var one := Visit(c, top, location, desc, ret, d);
      if desc.ChainDesc? && location == 0 && desc.location != 0 && desc.nameLen <= |desc.text| {
        VbmetaExtends(c, top, desc.location, desc.text, desc.nameLen, Some(desc.key), d);
      }
      if one.0.Continue? {
        WalkExtends(c, top, location, v, n + 1, one.0.ret, one.1);
      }
    }
  }

  // Whenever the caller goes on with the data, the first image is the top-level one: the read
  // of vbmeta_images[0] is safe.
  lemma TopImageRecorded(c: Config, top: nat, text: string, nameLen: nat, d: Data)
    requires nameLen <= |text|
    ensures var (ret, d') := LoadVbmeta(c, top, 0, text, nameLen, None, d);
            ShouldContinue(ret) && (c.allow || ret == VerifyOk) ==> |d'.images| > |d.images|
    decreases Rank(0, text)
  {
    if c.ops.utf8(text[..nameLen]) {
      var found := Find(c, 0, text[..nameLen], IsVbmeta(text));
      if found.TryBoot? {
        assert !IsVbmeta("boot") by { assert "boot"[0] == 'b'; }
        TopImageRecorded(c, 0, "boot", 4, d);
      } else if found.FoundImage? {
        var v := found.vbmeta;
        var check := Check(c, 0, None, v);
        var d1 := d.(images := d.images + [Image(CString(text), v, v.verdict)]);
        if check.Continue? && |d.images| != MAX_VBMETA_IMAGES {
          LoadRequestedExtends(c, 0, d1);
          WalkExtends(c, v.flags, 0, v, 0, check.ret, d1);
        }
      }
    }
  }

  function SlotVerify(c: Config, logging: bool): (VerifyResult, Option<Data>) {
    if logging && !c.allow then (VerifyInvalidArgument, None)
    else
      var (ret, d) := LoadVbmeta(c, 0, 0, "vbmeta", 6, None, EmptyData());
      if !ShouldContinue(ret) || (!c.allow && ret != VerifyOk) then (ret, None)
      else
        TopImageRecorded(c, 0, "vbmeta", 6, EmptyData());
        Finish(c, ret, d)
  }
}
