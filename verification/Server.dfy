/** The packet callback that server/src/main.cpp installs, with the objects it drives. */
module Server {
  import opened Packets
  import opened Bytes
  import Csv
  import F = Formatter
  import Stats
  import Storage
  import Validator

  /** What parse() makes of a payload, whichever format it takes it for. */
  function Parsed(payload: string, cfg: Validator.Config, now: nat, counter: nat): Validator.Result {
    if Validator.LooksAndroid(payload) then Validator.ParseAndroid(payload, cfg, now, counter)
    else Validator.ParseNative(payload, cfg, now)
  }

  /** An accepted packet fits the integer types of the statistics. */
  lemma AcceptedFits(payload: string, cfg: Validator.Config, now: nat, counter: nat)
    requires now < UINT64_MODULUS && counter <= UINT32_MAX
    ensures var r := Parsed(payload, cfg, now, counter);
            r.Ok? ==> r.packet.timestamp < UINT64_MODULUS && r.packet.sequence <= UINT32_MAX
                      && Validator.InRange(r.packet, cfg.maxAcc)
  {
    hide Validator.LooksAndroid, Validator.ReadDouble, Validator.ReadArray, Validator.ValueStart, Validator.InRange;
  }

  class Server {
    const validator: Validator.PacketValidator
    const stats: Stats.StatsAnalyzer
    const storage: Storage.StorageManager
    ghost var failed: nat  // packets of the batches write_packets could not write

    ghost predicate Parts()
      reads this, validator, stats, storage, storage.buffer
    {
      storage.Valid() && stats.Valid() && validator.androidCounter <= UINT32_MAX
    }

    /** The shutdown message adds up: each received packet was dropped, is buffered, was written or was lost with its batch. */
    ghost predicate Valid()
      reads this, validator, stats, storage, storage.buffer, storage.buffer.buffer
    {
      && Parts()
      && stats.packetsReceived == storage.droppedPackets + |storage.buffer.Contents()| + storage.writtenPackets + failed
    }

    constructor (cfg: Validator.Config, historySize: nat, reportInterval: nat, path: string, capacity: nat, separator: string, files: Csv.Files)
      requires reportInterval > 0
      ensures Valid() && stats.history == [] && storage.buffer.Contents() == []
      ensures validator.cfg == cfg && storage.path == path && storage.buffer.capacity == capacity && failed == 0
    {
      validator := new Validator.PacketValidator(cfg);
      stats := new Stats.StatsAnalyzer(historySize, reportInterval);
      var formatter := new F.CsvFormatter(separator, files);
      storage := new Storage.StorageManager(path, capacity, formatter);
      failed := 0;
      new;
      assert stats.packetsReceived == 0;
    }

    /**
     * The callback: a rejected payload leaves statistics and storage alone, an accepted packet is
     * recorded and then buffered or counted as dropped.
     */
    method OnMessage(payload: string, received: Stats.uint64) returns (result: Validator.Result)
      requires Valid()
      modifies validator, stats, storage`droppedPackets, storage.buffer, storage.buffer.buffer
      ensures Valid()
      ensures result == Parsed(payload, validator.cfg, received, old(validator.androidCounter))
      ensures !result.Ok? ==>
                stats.history == old(stats.history) && storage.buffer.Contents() == old(storage.buffer.Contents())
                && storage.droppedPackets == old(storage.droppedPackets)
      ensures result.Ok? ==>
                stats.history == old(stats.history) + [Stats.Sample(received, result.packet.timestamp, result.packet.sequence)]
      ensures result.Ok? ==>
                var room := |old(storage.buffer.Contents())| < storage.buffer.capacity;
                && storage.buffer.Contents() == old(storage.buffer.Contents()) + (if room then [result.packet] else [])
                && storage.droppedPackets == old(storage.droppedPackets) + (if room then 0 else 1)
    {
      hide Validator.LooksAndroid, Validator.ParseNative, Validator.ParseAndroid;
      AcceptedFits(payload, validator.cfg, received, validator.androidCounter);
      result := validator.Parse(payload, received);
      if !result.Ok? {
        return;
      }
      var packet := result.packet;
      stats.Record(received, packet.timestamp, packet.sequence);
      var pushed := storage.Push(packet);
    }

    /** One round of the writer thread between two messages. */
    method Flush(disk: F.Disk)
      requires Valid()
      modifies this`failed, storage`writtenPackets, storage.buffer, storage.formatter
      ensures Valid() && storage.buffer.Contents() == []
      ensures var n := |old(storage.buffer.Contents())|;
              var ok := F.PacketsReturn(old(storage.formatter.Now()), storage.path, old(storage.buffer.Contents()), disk,
                                        storage.formatter.separator);
              && storage.writtenPackets == old(storage.writtenPackets) + (if ok then n else 0)
              && failed == old(failed) + (if ok then 0 else n)
    {
      hide F.PacketsReturn, F.PacketsOn;
      ghost var packets, before := storage.buffer.Contents(), storage.formatter.Now();
      storage.FlushNow(disk);
      if !F.PacketsReturn(before, storage.path, packets, disk, storage.formatter.separator) {
        failed := failed + |packets|;
      }
    }
  }
}
