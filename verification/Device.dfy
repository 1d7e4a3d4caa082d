/** The part as the bootloaders see it: SPM operations on flash and byte access
    to EEPROM. */
module Device {
  import opened Spm

  class Chip {
    var mem: Memory
    var eeprom: seq<byte>

    constructor (flash: seq<byte>, page: nat, eeprom: seq<byte>)
      requires ValidPage(page)
      ensures mem == Memory(flash, Blank(page)) && this.eeprom == eeprom
    {
      mem := Memory(flash, Blank(page));
      this.eeprom := eeprom;
    }

    ghost predicate Valid()
      reads this
    {
      ValidMemory(mem)
    }

    method EepromWriteByte(a: nat, b: byte)
      modifies this`eeprom
      ensures eeprom == Poke(old(eeprom), a, b)
    {
      if a < |eeprom| {
        eeprom := eeprom[a := b];
      }
    }

    method PageErase(a: nat)
      requires Valid()
      modifies this`mem
      ensures Valid() && mem == Erase(old(mem), a)
    {
      mem := Erase(mem, a);
    }

    method PageFill(a: nat, lo: byte, hi: byte)
      requires Valid()
      modifies this`mem
      ensures Valid() && mem == Fill(old(mem), a, lo, hi)
    {
      mem := Fill(mem, a, lo, hi);
    }

    method PageWrite(a: nat)
      requires Valid()
      modifies this`mem
      ensures Valid() && mem == Write(old(mem), a)
    {
      mem := Write(mem, a);
    }
  }
}
