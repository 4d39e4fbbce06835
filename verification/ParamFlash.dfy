/** The flash as the firmware drives it, one read, erase or write at a time. */
module ParamFlash {
  import opened FlashStore

  class Flash {
    var sectors: seq<seq<bv8>>
    // How many more erases and writes will finish, and what the one that does not will leave.
    var power: int
    var noise: seq<bv8>

    ghost function State(): Medium
      reads this
    {
      Medium(sectors, power, noise)
    }

    /** spi_flash_read, from the start of a sector. */
    method Read(k: nat, n: nat) returns (data: seq<bv8>)
      requires k < |sectors| && n <= |sectors[k]|
      ensures data == sectors[k][..n]
    {
      data := sectors[k][..n];
    }

    method Finish(k: nat, now: seq<bv8>)
      requires k < |sectors|
      modifies this
      ensures State() == Changed(old(State()), k, now)
    {
      if power > 0 {
        sectors := sectors[k := now];
        power := power - 1;
      } else if power == 0 {
        sectors := sectors[k := noise];
        power := -1;
      }
    }

    /** spi_flash_erase_sector. */
    method EraseSector(k: nat)
      requires k < |sectors|
      modifies this
      ensures State() == Erased(old(State()), k)
    {
      Finish(k, Blank());
    }

    /** spi_flash_write, at the start of a sector. */
    method Write(k: nat, data: seq<bv8>)
      requires k < |sectors| && |data| <= |sectors[k]|
      modifies this
      ensures State() == Written(old(State()), k, data)
    {
      Finish(k, Burnt(sectors[k], data));
    }

    /** iotgoFlashLoadParam. */
    method LoadParam(l: Layout, n: nat) returns (param: seq<bv8>)
      requires Fits(l, State()) && n <= SPI_FLASH_SEC_SIZE
      ensures param == Loaded(l, State(), n)
    {
      var flag := Read(l.flag, l.flagSize);
      if flag[0] == 0 {
        param := Read(l.slot0, n);
      } else {
        param := Read(l.slot1, n);
      }
    }

    /** iotgoFlashSaveParam. */
    method SaveParam(l: Layout, param: seq<bv8>)
      requires Fits(l, State()) && |param| <= SPI_FLASH_SEC_SIZE
      modifies this
      ensures State() == Saved(l, old(State()), param)
      ensures AtomicStep(l, old(State()), State(), param)
    {
      hide Replaced;
      SaveAtomic(l, State(), param);
      var flag := Read(l.flag, l.flagSize);
      if flag[0] == 0 {
        ReplaceSector(l, l.slot1, param);
        flag := flag[0 := 1];
        ReplaceSector(l, l.flag, flag);
      } else {
        ReplaceSector(l, l.slot0, param);
        flag := flag[0 := 0];
        ReplaceSector(l, l.flag, flag);
      }
    }

    method ReplaceSector(ghost l: Layout, k: nat, data: seq<bv8>)
      requires Fits(l, State()) && k < |sectors| && |data| <= SPI_FLASH_SEC_SIZE
      modifies this
      ensures Fits(l, State()) && State() == Replaced(old(State()), k, data)
    {
      ReplacedKeeps(l, State(), k, data);
      EraseSector(k);
      Write(k, data);
    }
  }

  /** The MQTT example's configuration and its flash. */
  class SysConfig {
    var sysCfg: seq<bv8>
    const flash: Flash

    constructor (flash: Flash)
      ensures this.flash == flash
    {
      this.flash := flash;
      sysCfg := [];
    }

    /** CFG_Save, on its own layout. */
    method Save()
      requires Fits(CFG, flash.State()) && |sysCfg| <= SPI_FLASH_SEC_SIZE
      modifies flash
      ensures flash.State() == Saved(CFG, old(flash.State()), sysCfg)
    {
      flash.SaveParam(CFG, sysCfg);
    }

    /** CFG_Load: what is stored, or the defaults, which are then stored. */
    method Load(defaults: seq<bv8>)
      requires Fits(CFG, flash.State()) && Marked(defaults)
      modifies this, flash
      ensures Configured(sysCfg, flash.State()) == LoadedConfig(old(flash.State()), defaults)
    {
      sysCfg := flash.LoadParam(CFG, SYSCFG_SIZE);
      if !(sysCfg[0] == 0xA4 && sysCfg[1] == 0x55 && sysCfg[2] == 0xFF && sysCfg[3] == 0x00) {
        sysCfg := defaults;
        Save();
      }
    }
  }
}
