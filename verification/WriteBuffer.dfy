/** The write buffer as an object over the zone manager and the device (internal/ztl/buffer.go). */
module WriteBufferClass {
  import opened Errors
  import opened EmulatorClass
  import opened ZoneManagerClass
  import Z = Ztl
  import P = Pool
  import D = Device
  import U = Recency

  class WriteBuffer {
    var buffers: Z.Buffers

    constructor ()
      ensures buffers == map[]
    {
      buffers := map[];
    }

    method Add(zone: nat, data: seq<D.Sector>, writePointer: nat)
      modifies this
      ensures buffers == Z.BufferAdd(old(buffers), zone, data, writePointer)
    {
      if data == [] { return; }
      if zone !in buffers {
        buffers := buffers[zone := Z.ZoneBuffer(writePointer, [])];
      }
      buffers := buffers[zone := buffers[zone].(data := buffers[zone].data + data)];
      assert [] + data == data;
    }

    /** The overlap of the request and the buffer, when it is the whole request. */
    method Lookup(zone: nat, start: nat, count: nat) returns (r: Result<seq<D.Sector>>)
      ensures r == Z.Lookup(buffers, zone, start, count)
    {
      if zone !in buffers { return Failure(NoSuchZone); }
      var buf := buffers[zone];
      var bufEnd, end := buf.wp + |buf.data|, start + count;
      if start >= bufEnd || end <= buf.wp { return Failure(NoSuchZone); }
      var overlapStart := if buf.wp > start then buf.wp else start;
      var overlapEnd := if bufEnd < end then bufEnd else end;
      if overlapStart >= overlapEnd { return Failure(NoSuchZone); }
      if overlapStart != start || overlapEnd != end { return Failure(NoSuchZone); }
      r := Success(buf.data[overlapStart - buf.wp..overlapEnd - buf.wp]);
    }

    method Flush(zone: nat, zm: ZoneManager) returns (r: Status)
      requires zm.Valid()
      modifies this, zm, zm.device, zm.device.buffers
      ensures zm.Valid() && (buffers, zm.Both(), r) == Z.FlushZone(old(buffers), old(zm.Both()), zone)
    {
      hide P.GetOrOpen, D.WriteSectors, D.Sane, P.UpdateWritePointer, U.InOrder;
      if zone !in buffers { return Ok; }
      var buf := buffers[zone];
      buffers := buffers - {zone};
      if buf.data == [] { return Ok; }
      r := zm.GetOrOpen(zone);
      if r != Ok { return; }
      r := zm.device.WriteSectors(buf.wp, buf.data);
      if r != Ok { return; }
      zm.UpdateWritePointer(zone, buf.wp + |buf.data|);
    }

    /** Flushes every buffered zone, in whatever order the map yields them. */
    method FlushAll(zm: ZoneManager) returns (r: Status, ghost order: seq<nat>)
      requires zm.Valid()
      modifies this, zm, zm.device, zm.device.buffers
      ensures zm.Valid() && (buffers, zm.Both(), r) == Z.FlushEach(old(buffers), old(zm.Both()), order)
      ensures forall z :: z in old(buffers) ==> z in order
    {
      var ids := Ids();
      order := ids;
      r := Ok;
      hide Z.FlushZone, P.Kept;
      for i := 0 to |ids|
        invariant zm.Valid() && (buffers, zm.Both(), r) == Z.FlushEach(old(buffers), old(zm.Both()), ids[..i])
      {
        var flushed := Flush(ids[i], zm);
        if r == Ok { r := flushed; }
        assert ids[..i + 1][..i] == ids[..i];
      }
      assert ids[..|ids|] == ids;
    }

    method Ids() returns (ids: seq<nat>)
      ensures forall z :: z in buffers <==> z in ids
    {
      ids := [];
      var left := buffers.Keys;
      while left != {}
        invariant left <= buffers.Keys
        invariant forall z :: z in ids <==> z in buffers && z !in left
        decreases |left|
      {
        var z :| z in left;
        left := left - {z};
        ids := ids + [z];
      }
    }
  }
}
