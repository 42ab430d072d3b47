/** How line 1041 of Application/UefiAvb/libavb/avb_slot_verify.c hides errors: what was wrong
    before a hashtree descriptor without root digest is forgotten. */
module SlotHidden {
  import opened Bytes
  import opened AvbTypes
  import opened SlotSpec
  import opened SlotProofs

  // From such a descriptor on, the result does not depend on what was found before it.
  lemma PersistentForgets(c: Config, top: nat, location: nat, v: Vbmeta, n: nat, ret: VerifyResult, ret': VerifyResult, d: Data)
    requires n < |v.descriptors| && Persistent(v.descriptors[n])
    ensures Walk(c, top, location, v, n, ret, d) == Walk(c, top, location, v, n, ret', d)
  {
    assert Visit(c, top, location, v.descriptors[n], ret, d) == Visit(c, top, location, v.descriptors[n], ret', d);
  }

  // ----- a strict run that ends with OK although the digest of a requested partition is wrong

  const DIGEST := "0123456789abcdef0123456789abcdef"

  const CHAINED := Vbmeta(ImageOk, "K2", 0, 5, [HashDesc(true, "boot", false, 4, Sha256, "", DIGEST)])

  const MAIN := Vbmeta(ImageOk, "K1", 0, 5,
    [ChainDesc(true, 1, "boot", 4, "K2"), HashtreeDesc(true, "data", true, Sha256, 0)])

  function ImageAt(part: string): Read<Vbmeta> { Got(if part == "vbmeta" then MAIN else CHAINED) }

  function Stored(size: nat): PersistentRead { PersistentRead(PersistentOk, "", size) }

  // No digest that this device computes is the expected one.
  function Device(): Ops {
    Ops(_ => true, _ => Got(Some(Footer(0, 256))), (part, _, _) => ImageAt(part), _ => Got(true), _ => Got(0),
        None, None, (_, _) => Got("evil"), Some((_, size: nat) => Stored(size)), (_, _) => "", Got(false), line => Some(line))
  }

  function Example(): Config { Config(Device(), ["boot"], "", false) }

  lemma Names()
    ensures CString("boot") == "boot" && CString("vbmeta") == "vbmeta"
    ensures !IsVbmeta("boot") && IsVbmeta("vbmeta")
  {
    assert CString("t") == "t" && CString("a") == "a";
    assert CString("ot") == "ot" && CString("ta") == "ta";
    assert CString("oot") == "oot" && CString("eta") == "eta";
    assert CString("boot") == "boot" && CString("meta") == "meta";
    assert CString("bmeta") == "bmeta";
    assert CString("vbmeta") == "vbmeta";
    assert "boot"[0] != "vbmeta"[0];
  }

  lemma WrongDigest(d: Data)
    requires |d.loaded| < MAX_LOADED_PARTITIONS
    ensures !HashGenuine(Example(), CHAINED.descriptors[0])
    ensures HashPartition(Example(), CHAINED.descriptors[0], d)
         == (VerifyVerification, d.(loaded := d.loaded + [Loaded("boot", "evil")]))
  {
    var (c, h) := (Example(), CHAINED.descriptors[0]);
    assert HashPartName(c, h) == Some("boot") by { assert "boot" + "" == "boot"; }
    assert LoadFull(c, "boot", 4) == (VerifyOk, "evil");
    assert CompareDigest(c, h, "boot", "evil") == VerifyVerification;
    assert HashCheck(c, h) == (VerifyVerification, Some("evil"));
    HashCheckMeaning(c, h);
  }

  lemma ChainFails(d: Data)
    requires |d.images| < MAX_VBMETA_IMAGES && |d.loaded| < MAX_LOADED_PARTITIONS
    ensures LoadVbmeta(Example(), 0, 1, "boot", 4, Some("K2"), d)
         == (VerifyVerification,
             d.(images := d.images + [Image("boot", CHAINED, ImageOk)], loaded := d.loaded + [Loaded("boot", "evil")]))
    ensures !Genuine(Example(), 1, "boot", 4, Some("K2"))
  {
    var c := Example();
    Names();
    assert "boot"[..4] == "boot" && "boot" + "" == "boot";
    assert Find(c, 1, "boot", false) == FoundImage(CHAINED);
    var d1 := d.(images := d.images + [Image("boot", CHAINED, ImageOk)]);
    WrongDigest(d1);
    assert Check(c, 1, Some("K2"), CHAINED) == Continue(VerifyOk);
    assert Walk(c, 0, 1, CHAINED, 0, VerifyOk, d1).0 == Stop(VerifyVerification);
    assert !DescriptorGenuine(c, 1, CHAINED.descriptors[0]);
  }

  lemma TreeForgets(d: Data)
    requires d.substs == 0
    ensures Visit(Example(), 0, 0, MAIN.descriptors[1], VerifyVerification, d) == (Continue(VerifyOk), d.(substs := 1))
  {
    assert ReadPersistent(Example(), "data", 32) == (VerifyOk, "");
    assert RootDigest(Example(), MAIN.descriptors[1], true, d) == (VerifyOk, d.(substs := 1));
  }

  lemma MainWalk(d1: Data, d2: Data)
    requires d1.substs == 0 && |d1.images| < MAX_VBMETA_IMAGES && |d1.loaded| < MAX_LOADED_PARTITIONS
    requires d2 == d1.(images := d1.images + [Image("boot", CHAINED, ImageOk)], loaded := d1.loaded + [Loaded("boot", "evil")])
    ensures Walk(Example(), 0, 0, MAIN, 0, VerifyOk, d1) == (Continue(VerifyOk), d2.(substs := 1))
  {
    var c := Example();
    ChainFails(d1);
    TreeForgets(d2);
    assert MAIN.descriptors[0] == ChainDesc(true, 1, "boot", 4, "K2");
    assert Visit(c, 0, 0, MAIN.descriptors[0], VerifyOk, d1) == (Continue(VerifyVerification), d2);
    assert Walk(c, 0, 0, MAIN, 1, VerifyVerification, d2) == Walk(c, 0, 0, MAIN, 2, VerifyOk, d2.(substs := 1));
  }

  lemma StrictModeMissesError()
    ensures !Example().allow && !SlotGenuine(Example())
    ensures var (ret, data) := SlotVerify(Example(), false);
            ret == VerifyOk && data.Some? && Loaded("boot", "evil") in data.value.loaded
  {
    var c := Example();
    Names();
    assert "vbmeta"[..6] == "vbmeta" && "vbmeta" + "" == "vbmeta";
    assert Find(c, 0, "vbmeta", true) == FoundImage(MAIN);
    assert Check(c, 0, None, MAIN) == Continue(VerifyOk);
    var d1 := EmptyData().(images := EmptyData().images + [Image("vbmeta", MAIN, ImageOk)]);
    var d2 := d1.(images := d1.images + [Image("boot", CHAINED, ImageOk)], loaded := d1.loaded + [Loaded("boot", "evil")]);
    MainWalk(d1, d2);
    ChainFails(d1);
    assert MAIN.descriptors[0] == ChainDesc(true, 1, "boot", 4, "K2");
    assert !DescriptorGenuine(c, 0, MAIN.descriptors[0]);
    var d4 := Record(d2.(substs := 1), 0, MAIN, VerifyOk).1;
    assert LoadVbmeta(c, 0, 0, "vbmeta", 6, None, EmptyData()) == (VerifyOk, d4);
    assert Loaded("boot", "evil") in d4.loaded;
  }

  // ----- an unsigned image that is reported OK when verification errors are allowed

  const UNSIGNED := Vbmeta(NotSigned, "", 0, 5, [HashtreeDesc(true, "data", true, Sha256, 0)])

  function LooseExample(): Config {
    Config(Device().(vbmeta := (_, _, _) => Got(UNSIGNED)), ["boot"], "", true)
  }

  lemma AllowModeMissesError()
    ensures LooseExample().allow && !SlotGenuine(LooseExample())
    ensures var (ret, data) := SlotVerify(LooseExample(), false);
            ret == VerifyOk && data.Some? && data.value.images != [] && data.value.images[0].verifyResult != ImageOk
  {
    var c := LooseExample();
    Names();
    assert "vbmeta"[..6] == "vbmeta" && "vbmeta" + "" == "vbmeta";
    assert Find(c, 0, "vbmeta", true) == FoundImage(UNSIGNED);
    assert Check(c, 0, None, UNSIGNED) == Continue(VerifyVerification);
    var d1 := EmptyData().(images := EmptyData().images + [Image("vbmeta", UNSIGNED, NotSigned)]);
    var tree := UNSIGNED.descriptors[0];
    assert ReadPersistent(c, "data", 32) == (VerifyOk, "");
    assert RootDigest(c, tree, true, d1) == (VerifyOk, d1.(substs := 1));
    assert Walk(c, 0, 0, UNSIGNED, 0, VerifyVerification, d1) == Walk(c, 0, 0, UNSIGNED, 1, VerifyOk, d1.(substs := 1));
    var d4 := Record(d1.(substs := 1), 0, UNSIGNED, VerifyOk).1;
    assert LoadVbmeta(c, 0, 0, "vbmeta", 6, None, EmptyData()) == (VerifyOk, d4);
  }
}
