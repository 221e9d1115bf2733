/** The synchronous disk: an array of sectors that is read and written one whole sector at a time.
    A request and the wait for its completion interrupt are one atomic step here. */
module SynchDisks {
  import opened Bytes

  const SectorSize: nat := 256
  const SectorsPerTrack: nat := 32
  const NumTracks: nat := 32
  const NumSectors: nat := 1024

  /** The contents of a whole disk, as a value. */
  type Image = seq<seq<Byte>>

  ghost predicate IsImage(d: Image) {
    |d| == NumSectors && forall s :: 0 <= s < NumSectors ==> |d[s]| == SectorSize
  }

  /** Nothing but one sector changed. */
  ghost predicate OnlyChanged(d: Image, e: Image, s: nat) {
    IsImage(d) && IsImage(e) && forall t :: 0 <= t < NumSectors && t != s ==> e[t] == d[t]
  }

  class SynchDisk {
    const sectors: array<seq<Byte>>

    ghost predicate Valid()
      reads this, sectors
    {
      IsImage(sectors[..])
    }

    ghost function Contents(): Image
      reads this, sectors
    {
      sectors[..]
    }

    constructor (initial: array<seq<Byte>>)
      requires IsImage(initial[..])
      ensures sectors == initial && Valid()
    {
      sectors := initial;
    }

    /** Copy sector `n` into `data` from index `at` on. */
    method ReadSector(n: nat, data: array<Byte>, at: nat)
      requires Valid() && n < NumSectors && at + SectorSize <= data.Length
      modifies data
      ensures data[..] == Splice(old(data[..]), at, Contents()[n])
    {
      forall j | 0 <= j < SectorSize {
        data[at + j] := sectors[n][j];
      }
    }

    /** Overwrite sector `n` with the bytes of `data` from index `at` on. */
    method WriteSector(n: nat, data: array<Byte>, at: nat)
      requires Valid() && n < NumSectors && at + SectorSize <= data.Length
      modifies sectors
      ensures Valid() && Contents() == old(Contents())[n := data[at..at + SectorSize]]
    {
      sectors[n] := data[at..at + SectorSize];
    }
  }
}
