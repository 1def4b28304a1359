/** The drive object and its sector interface.  Each transfer goes through the one sector buffer. */
module Drives {
  import opened Bytes
  import opened FatVolume

  const BUFFER_SIZE := 2048

  class Drive {
    const sectorSize: nat
    const bufferA: array<byte>
    var disk: Disk
    var lba: nat

    ghost predicate Valid()
      reads this
    {
      && bufferA.Length == BUFFER_SIZE && sectorSize <= BUFFER_SIZE
      && forall i :: 0 <= i < |disk| ==> |disk[i]| == sectorSize
    }

    constructor (disk: Disk, sectorSize: nat)
      requires sectorSize <= BUFFER_SIZE
      requires forall i :: 0 <= i < |disk| ==> |disk[i]| == sectorSize
      ensures Valid() && fresh(bufferA)
      ensures this.disk == disk && this.sectorSize == sectorSize
    {
      this.disk, this.sectorSize, lba := disk, sectorSize, 0;
      bufferA := new byte[BUFFER_SIZE];
    }

    /** IDEReadData: clear the buffer, then transfer one sector into it. */
    method ReadData()
      requires Valid() && lba < |disk|
      modifies bufferA
      ensures bufferA[..sectorSize] == disk[lba]
      ensures forall i :: sectorSize <= i < BUFFER_SIZE ==> bufferA[i] == 0
    {
      var s := disk[lba];
      forall i | 0 <= i < BUFFER_SIZE {
        bufferA[i] := if i < sectorSize then s[i] else 0;
      }
    }

    /** IDEWriteData: transfer one sector out of the buffer. */
    method WriteData()
      requires Valid() && lba < |disk|
      modifies `disk
      ensures Valid() && disk == old(disk)[lba := bufferA[..sectorSize]]
    {
      disk := disk[lba := bufferA[..sectorSize]];
    }

    method SMReadFrom(sector: nat)
      requires Valid() && sector < |disk|
      modifies `lba, bufferA
      ensures bufferA[..sectorSize] == disk[sector]
    {
      lba := sector;
      ReadData();
    }

    /** A buffer that is too long is refused and nothing is written.  A shorter one than the sector goes in front of
        what the drive's buffer held. */
    method SMWriteTo(sector: nat, buf: seq<byte>, size: nat) returns (ok: bool)
      requires Valid() && sector < |disk| && size <= |buf|
      modifies `lba, `disk, bufferA
      ensures Valid() && ok == (size <= BUFFER_SIZE)
      ensures bufferA[..] == if ok then buf[..size] + old(bufferA[size..]) else old(bufferA[..])
      ensures disk == if ok then old(disk)[sector := bufferA[..sectorSize]] else old(disk)
      ensures ok && sectorSize <= size ==> bufferA[..sectorSize] == buf[..sectorSize]
    {
      ok := size <= BUFFER_SIZE;
      if ok {
        lba := sector;
        forall i | 0 <= i < size {
          bufferA[i] := buf[i];
        }
        WriteData();
      }
    }
  }
}
