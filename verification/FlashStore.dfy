/**
 * The two-slot parameter store in flash, of the IoTgo firmware and of the MQTT example: a save
 * fills the slot that is not in use and then flips a flag sector. Power can fail during any
 * erase or write, which leaves the sector being changed with arbitrary contents.
 */
module FlashStore {
  const SPI_FLASH_SEC_SIZE: nat := 4096

  /** The sectors of one store: the two slots and the flag. */
  datatype Layout = Layout(slot0: nat, slot1: nat, flag: nat, flagSize: nat)

  const IOTGO: Layout := Layout(0x78 + 0x00, 0x78 + 0x01, 0x78 + 0x02, 8)
  const CFG_LOCATION: nat := 0x79
  const CFG: Layout := Layout(CFG_LOCATION + 0, CFG_LOCATION + 1, CFG_LOCATION + 3, 4)

  /**
   * The flash and the power supply: `power` operations will still finish, the one after them is
   * cut and leaves `noise` in the sector it was changing, and later ones never happen.
   */
  datatype Medium = Medium(sectors: seq<seq<bv8>>, power: int, noise: seq<bv8>)

  /** The layout's sectors exist and are three different ones. */
  ghost predicate Fits(l: Layout, m: Medium) {
    && l.slot0 < |m.sectors| && l.slot1 < |m.sectors| && l.flag < |m.sectors|
    && l.slot0 != l.slot1 && l.slot0 != l.flag && l.slot1 != l.flag
    && 1 <= l.flagSize <= SPI_FLASH_SEC_SIZE
    && (forall k :: 0 <= k < |m.sectors| ==> |m.sectors[k]| == SPI_FLASH_SEC_SIZE)
    && |m.noise| == SPI_FLASH_SEC_SIZE
  }

  /** An erased sector: all ones. */
  function Blank(): (b: seq<bv8>)
    ensures |b| == SPI_FLASH_SEC_SIZE
  {
    seq(SPI_FLASH_SEC_SIZE, _ => 0xFF)
  }

  /** Writing can only clear bits. */
  function Burnt(was: seq<bv8>, data: seq<bv8>): (r: seq<bv8>)
    requires |data| <= |was|
    ensures |r| == |was|
  {
    seq(|data|, i requires 0 <= i < |data| => was[i] & data[i]) + was[|data|..]
  }

  lemma AndOnes(b: bv8)
    ensures 0xFF & b == b
  {
  }

  /** On an erased sector a write stores the data. */
  lemma BurntErased(data: seq<bv8>)
    requires |data| <= SPI_FLASH_SEC_SIZE
    ensures Burnt(Blank(), data)[..|data|] == data
  {
    forall i | 0 <= i < |data| ensures Burnt(Blank(), data)[i] == data[i] {
      AndOnes(data[i]);
    }
  }

  /** An operation that, if it finishes, gives sector `k` the contents `now`. */
  function Changed(m: Medium, k: nat, now: seq<bv8>): Medium
    requires k < |m.sectors|
  {
    if m.power > 0 then m.(sectors := m.sectors[k := now], power := m.power - 1)
    else if m.power == 0 then m.(sectors := m.sectors[k := m.noise], power := -1)
    else m
  }

  function Erased(m: Medium, k: nat): Medium
    requires k < |m.sectors|
  {
    Changed(m, k, Blank())
  }

  function Written(m: Medium, k: nat, data: seq<bv8>): Medium
    requires k < |m.sectors| && |data| <= |m.sectors[k]|
  {
    Changed(m, k, Burnt(m.sectors[k], data))
  }

  /** The slot a load reads. */
  function Active(l: Layout, m: Medium): nat
    requires Fits(l, m)
  {
    if m.sectors[l.flag][0] == 0 then l.slot0 else l.slot1
  }

  function Loaded(l: Layout, m: Medium, n: nat): seq<bv8>
    requires Fits(l, m) && n <= SPI_FLASH_SEC_SIZE
  {
    m.sectors[Active(l, m)][..n]
  }

  /** Erase, then write. */
  function Replaced(m: Medium, k: nat, data: seq<bv8>): Medium
    requires k < |m.sectors| && |data| <= |m.sectors[k]| && |data| <= |m.noise| && |data| <= SPI_FLASH_SEC_SIZE
  {
    Written(Erased(m, k), k, data)
  }

  /** What the medium is after a save, wherever the power failed. */
  function Saved(l: Layout, m: Medium, param: seq<bv8>): Medium
    requires Fits(l, m) && |param| <= SPI_FLASH_SEC_SIZE
  {
    var flag := m.sectors[l.flag][..l.flagSize];
    if flag[0] == 0 then Replaced(Replaced(m, l.slot1, param), l.flag, flag[0 := 1])
    else Replaced(Replaced(m, l.slot0, param), l.flag, flag[0 := 0])
  }

  /** Replacing sector `k` touches no other, and with power for both steps stores the data. */
  lemma ReplacedKeeps(l: Layout, m: Medium, k: nat, data: seq<bv8>)
    requires Fits(l, m) && k < |m.sectors| && |data| <= SPI_FLASH_SEC_SIZE
    ensures var r := Replaced(m, k, data);
            && Fits(l, r) && |r.sectors| == |m.sectors| && r.noise == m.noise
            && (forall j :: 0 <= j < |m.sectors| && j != k ==> r.sectors[j] == m.sectors[j])
            && (m.power >= 2 ==> r.power == m.power - 2 && r.sectors[k][..|data|] == data)
            && (m.power < 2 ==> r.power < 0) && (m.power < 0 ==> r == m)
  {
    BurntErased(data);
  }

  /**
   * From `m` to `r` only the layout's three sectors change, the slot a load would have read is
   * left alone, and a later load reads the old or the new parameters, the new ones if power
   * held for all four steps.
   */
  ghost predicate AtomicStep(l: Layout, m: Medium, r: Medium, param: seq<bv8>)
    requires Fits(l, m) && |param| <= SPI_FLASH_SEC_SIZE
  {
    && Fits(l, r) && |r.sectors| == |m.sectors|
    && (forall j :: 0 <= j < |m.sectors| && j != l.slot0 && j != l.slot1 && j != l.flag
                    ==> r.sectors[j] == m.sectors[j])
    && r.sectors[Active(l, m)] == m.sectors[Active(l, m)]
    && (Active(l, r) != Active(l, m) ==> Loaded(l, r, |param|) == param)
    && (m.power >= 4 ==> Loaded(l, r, |param|) == param && r.power == m.power - 4)
  }

  /** A save is atomic under every power failure. */
  lemma SaveAtomic(l: Layout, m: Medium, param: seq<bv8>)
    requires Fits(l, m) && |param| <= SPI_FLASH_SEC_SIZE
    ensures AtomicStep(l, m, Saved(l, m, param), param)
  {
    hide Replaced;
    var flag := m.sectors[l.flag][..l.flagSize];
    var k := if flag[0] == 0 then l.slot1 else l.slot0;
    ReplacedKeeps(l, m, k, param);
    var next := flag[0 := if flag[0] == 0 then 1 else 0];
    ReplacedKeeps(l, Replaced(m, k, param), l.flag, next);
    var r := Saved(l, m, param);
    assert m.power >= 4 ==> r.sectors[l.flag][..|next|][0] == next[0];
  }

  /** One boot: a save, the power it finds and the garbage a cut operation would leave. */
  datatype Boot = Boot(param: seq<bv8>, power: int, noise: seq<bv8>)

  ghost predicate Sized(boots: seq<Boot>, n: nat) {
    forall i :: 0 <= i < |boots| ==> |boots[i].param| == n && |boots[i].noise| == SPI_FLASH_SEC_SIZE
  }

  function AfterBoot(l: Layout, m: Medium, boot: Boot): (r: Medium)
    requires Fits(l, m) && |boot.param| <= SPI_FLASH_SEC_SIZE && |boot.noise| == SPI_FLASH_SEC_SIZE
    ensures Fits(l, r)
  {
    SaveAtomic(l, m.(power := boot.power, noise := boot.noise), boot.param);
    Saved(l, m.(power := boot.power, noise := boot.noise), boot.param)
  }

  function Run(l: Layout, m: Medium, boots: seq<Boot>, n: nat): (r: Medium)
    requires Fits(l, m) && n <= SPI_FLASH_SEC_SIZE && Sized(boots, n)
    ensures Fits(l, r)
    decreases |boots|
  {
    if boots == [] then m
    else
      AfterBoot(l, Run(l, m, boots[..|boots| - 1], n), boots[|boots| - 1])
  }

  /** The value of the register after the boots up to `i`; -1 stands for the start. */
  function ValueAt(l: Layout, m: Medium, boots: seq<Boot>, n: nat, i: int): seq<bv8>
    requires Fits(l, m) && n <= SPI_FLASH_SEC_SIZE && -1 <= i < |boots|
  {
    if i == -1 then Loaded(l, m, n) else boots[i].param
  }

  /** The boot whose parameters a load returns: none that completed comes after it. */
  ghost predicate Current(l: Layout, m: Medium, boots: seq<Boot>, n: nat, i: int)
    requires Fits(l, m) && n <= SPI_FLASH_SEC_SIZE && Sized(boots, n)
  {
    && -1 <= i < |boots|
    && (forall j :: i < j < |boots| ==> boots[j].power < 4)
    && Loaded(l, Run(l, m, boots, n), n) == ValueAt(l, m, boots, n, i)
  }

  /** Over every sequence of saves and power failures, a load returns one save's parameters
      whole (or the initial ones), and never ones older than the last completed save. */
  lemma {:induction false} AtomicRegister(l: Layout, m: Medium, boots: seq<Boot>, n: nat) returns (i: int)
    requires Fits(l, m) && n <= SPI_FLASH_SEC_SIZE && Sized(boots, n)
    ensures Current(l, m, boots, n, i)
    decreases |boots|
  {
    hide Fits, Loaded, AfterBoot;
    if boots == [] {
      return -1;
    }
    var rest, last := boots[..|boots| - 1], boots[|boots| - 1];
    var j := AtomicRegister(l, m, rest, n);
    BootStep(l, Run(l, m, rest, n), last);
    i := if Loaded(l, Run(l, m, boots, n), n) == last.param then |boots| - 1 else j;
  }

  lemma BootStep(l: Layout, m: Medium, boot: Boot)
    requires Fits(l, m) && |boot.param| <= SPI_FLASH_SEC_SIZE && |boot.noise| == SPI_FLASH_SEC_SIZE
    ensures var v := Loaded(l, AfterBoot(l, m, boot), |boot.param|);
            v == boot.param || (v == Loaded(l, m, |boot.param|) && boot.power < 4)
  {
    hide Saved;
    SaveAtomic(l, m.(power := boot.power, noise := boot.noise), boot.param);
  }

  /** The stores of the repository fit any flash of at least 512 KB. */
  lemma LayoutsFit(m: Medium)
    requires |m.sectors| >= 128 && |m.noise| == SPI_FLASH_SEC_SIZE
    requires forall k :: 0 <= k < |m.sectors| ==> |m.sectors[k]| == SPI_FLASH_SEC_SIZE
    ensures Fits(IOTGO, m) && Fits(CFG, m)
  {
  }

  // The configuration of the MQTT example, with its fallback to defaults

  const SYSCFG_SIZE: nat := 308

  /** The marker 0x00FF55A4 at the front of a configuration, low byte first. */
  predicate Marked(cfg: seq<bv8>) {
    |cfg| == SYSCFG_SIZE && cfg[0] == 0xA4 && cfg[1] == 0x55 && cfg[2] == 0xFF && cfg[3] == 0x00
  }

  datatype Configured = Configured(cfg: seq<bv8>, medium: Medium)

  /** What CFG_Load makes of the flash. */
  function LoadedConfig(m: Medium, defaults: seq<bv8>): (c: Configured)
    requires Fits(CFG, m) && Marked(defaults)
    ensures Marked(c.cfg)
  {
    var stored := Loaded(CFG, m, SYSCFG_SIZE);
    if Marked(stored) then Configured(stored, m) else Configured(defaults, Saved(CFG, m, defaults))
  }

  /** The configuration a boot finds does not change at the next boot, even when the power
      failed while the defaults were being stored; and after a boot whose power lasted, the
      next one writes nothing. */
  lemma ConfigStable(m: Medium, defaults: seq<bv8>, power: int, noise: seq<bv8>)
    requires Fits(CFG, m) && Marked(defaults) && |noise| == SPI_FLASH_SEC_SIZE
    ensures var c := LoadedConfig(m, defaults);
            var again := c.medium.(power := power, noise := noise);
            && Fits(CFG, again) && LoadedConfig(again, defaults).cfg == c.cfg
            && (m.power >= 4 ==> LoadedConfig(again, defaults).medium == again)
  {
    hide Saved;
    SaveAtomic(CFG, m, defaults);
  }
}
