/** Where runs begin: a layer built over a fresh device and an empty journal is in the start state of every run. */
module Origin {
  import opened Errors
  import L = Log
  import Z = Ztl
  import P = Pool
  import D = Device
  import F = Frames
  import opened Codec
  import opened EmulatorClass
  import opened Wal
  import opened Layer
  import Run

  /** Creates a device, a journal over an empty file, and a layer. */
  method Begin(crc: Checksum, zoneCount: nat, zoneSectors: nat, maxOpenZones: nat, sectorsPerSeg: nat, emergencyFreeZones: int)
    returns (r: Result<ZTL>)
    requires zoneSectors > 0
    ensures r.Success? <==> sectorsPerSeg > 0 && zoneCount * zoneSectors / sectorsPerSeg > 0
    ensures r.Success? ==>
              && r.value.Valid() && r.value.gc.emergencyFreeZones == emergencyFreeZones
              && r.value.State() == Run.Start(zoneCount, zoneSectors, maxOpenZones, sectorsPerSeg)
  {
    hide D.Sane, Emulator.View, P.Report, D.Fresh;
    var device := new Emulator(zoneCount, zoneSectors, maxOpenZones);
    var journal := new Journal.Open(crc, []);
    EmptyScan(crc);
    StartIs(zoneCount, zoneSectors, maxOpenZones, sectorsPerSeg);
    hide Run.Start, StartBase, F.ScanMaxLSN;
    r := New(device, journal, sectorsPerSeg, emergencyFreeZones);
  }

  lemma EmptyScan(crc: Checksum)
    ensures F.ScanMaxLSN(crc, []) == 0
  {
  }

  lemma StartIs(zoneCount: nat, zoneSectors: nat, maxOpen: nat, spp: nat)
    ensures spp > 0 ==>
              Z.Ztl(StartBase(D.Fresh(zoneCount, zoneSectors, maxOpen), L.Log([], [], 0, 0), spp), map[], 0, false) ==
              Run.Start(zoneCount, zoneSectors, maxOpen, spp)
  {
  }
}
