/**
  The whole path of a download through the daemon: device bytes, chunked transfer, XFER reply, client,
  dive splitting, profile parsing.
 */
module EndToEnd {
  import opened Words
  import opened Wrappers
  import DtiTables
  import DtiCodec
  import ProfileSpec
  import ProfileLaws
  import ProfileParser
  import ProfileTheorems
  import DiveExtract
  import Base64
  import DeviceTransfer
  import SmartiServer
  import opened SmartiClient
  import opened XferRoundTrip

  /** The bytes the device delivered are the bytes the client splits: whatever the chunk size, the way
      reads were split and the interrupted reads of the client, the client receives all dives of the
      device and extracts exactly those. */
  lemma DownloadedDives(ds: seq<seq<Byte>>, arrivals: seq<DeviceTransfer.Arrival>, csize: nat,
                        events: seq<Event>, after: seq<Event>)
    requires ds != [] && DiveExtract.AllWellFormed(ds)
    requires Base64.EncodedLength(|DiveExtract.Concat(ds)|) < 0x8000_0000
    requires var size := |DiveExtract.Concat(ds)|;
      var run := DeviceTransfer.Receive(DiveExtract.Concat(ds), arrivals, csize, size, 0, DeviceTransfer.Never, 1);
      && run.code.Done?
      && DeviceTransfer.Join(run.chunks) != []
      && Delivers(events, SmartiServer.DataReply(DeviceTransfer.Join(run.chunks)), after)
    ensures ReceiveReply(events) == Transfer(Received(Some(DiveExtract.Concat(ds))), after)
    ensures DiveExtract.ExtractFrom(DiveExtract.Concat(ds), 0) ==
      DiveExtract.Extraction(DiveExtract.Success, DiveExtract.Callbacks(ds))
  {
    var bytes := DiveExtract.Concat(ds);
    hide *;
    Transferred(bytes, arrivals, csize);
    ReplyReceived(bytes, events, after);
    SmallEnough(bytes);
    assert bytes[0..] == bytes;
    DiveExtract.ExtractConcat(bytes, 0, ds);
  }

  lemma Transferred(bytes: seq<Byte>, arrivals: seq<DeviceTransfer.Arrival>, csize: nat)
    requires DeviceTransfer.Receive(bytes, arrivals, csize, |bytes|, 0, DeviceTransfer.Never, 1).code.Done?
    ensures DeviceTransfer.Join(
      DeviceTransfer.Receive(bytes, arrivals, csize, |bytes|, 0, DeviceTransfer.Never, 1).chunks) == bytes
  {
    DeviceTransfer.ChunksInOrder(bytes, arrivals, csize, |bytes|, 0, DeviceTransfer.Never, 1);
  }

  lemma SmallEnough(bytes: seq<Byte>)
    requires bytes != [] && Base64.EncodedLength(|bytes|) < 0x8000_0000
    ensures |bytes| < TWO_32
  {
  }

  /** A dive of the device: header bytes, its size, other header fields, the encoding of its records.  It is
      one of those the splitter delivers, and a fresh parser sends exactly those records' waypoints. */
  lemma DownloadedProfile(model: DtiTables.Model, fields: seq<Byte>, recs: seq<DtiCodec.Record>)
    requires DtiTables.Valid(DtiTables.LayoutOf(model))
    requires DtiCodec.AllWellFormed(DtiTables.LayoutOf(model), recs)
    requires |fields| == DtiTables.HeaderSize(model) - 8
    requires DtiTables.HeaderSize(model) + |DtiCodec.EncodeAll(DtiTables.LayoutOf(model), recs)| < TWO_32
    ensures var d := ProfileTheorems.WithHeader(model, DiveExtract.DIVE_HEADER, fields,
                                                DtiCodec.EncodeAll(DtiTables.LayoutOf(model), recs));
      && DiveExtract.WellFormedDive(d)
      && var r := ProfileParser.ProfileOf(model, d, ProfileSpec.RESET);
      && r.code.Success?
      && r.output == ProfileSpec.Run(ProfileSpec.ConfigOf(model), ProfileSpec.RESET, recs)
      && ProfileLaws.ValuesOn(ProfileLaws.DepthChannel, r.output.tokens)
           == ProfileLaws.ExpectedDepths(DtiTables.LayoutOf(model), recs)
  {
    hide DtiTables.Table, ProfileSpec.Run, DtiCodec.EncodeAll, ProfileLaws.ExpectedDepths, ProfileLaws.ValuesOn;
    hide ProfileParser.ProfileOf, DtiTables.HeaderSize, ProfileTheorems.WithHeader, Uint32Le, DtiCodec.WellFormed;
    hide DtiTables.Valid;
    var code := DtiCodec.EncodeAll(DtiTables.LayoutOf(model), recs);
    HeaderRoom(model);
    ProfileTheorems.HeaderDeclares(model, DiveExtract.DIVE_HEADER, fields, code);
    ProfileTheorems.EncodedDive(model, DiveExtract.DIVE_HEADER, fields, recs);
  }

  /** The dives of a device: the k-th has the header fields fields[k] and the records recs[k]. */
  function DivesOf(model: DtiTables.Model, fields: seq<seq<Byte>>, recs: seq<seq<DtiCodec.Record>>): (ds: seq<seq<Byte>>)
    requires DtiTables.Valid(DtiTables.LayoutOf(model)) && Dives(model, fields, recs)
    ensures |ds| == |recs|
  {
    seq(|recs|, k requires 0 <= k < |recs| =>
      ProfileTheorems.WithHeader(model, DiveExtract.DIVE_HEADER, fields[k],
                                 DtiCodec.EncodeAll(DtiTables.LayoutOf(model), recs[k])))
  }

  predicate Dives(model: DtiTables.Model, fields: seq<seq<Byte>>, recs: seq<seq<DtiCodec.Record>>)
    requires DtiTables.Valid(DtiTables.LayoutOf(model))
  {
    |fields| == |recs| && forall k :: 0 <= k < |recs| ==>
      && DtiCodec.AllWellFormed(DtiTables.LayoutOf(model), recs[k])
      && |fields[k]| == DtiTables.HeaderSize(model) - 8
      && DtiTables.HeaderSize(model) + |DtiCodec.EncodeAll(DtiTables.LayoutOf(model), recs[k])| < TWO_32
  }

  lemma DivesWellFormed(model: DtiTables.Model, fields: seq<seq<Byte>>, recs: seq<seq<DtiCodec.Record>>)
    requires DtiTables.Valid(DtiTables.LayoutOf(model)) && Dives(model, fields, recs)
    ensures DiveExtract.AllWellFormed(DivesOf(model, fields, recs))
    ensures forall k :: 0 <= k < |recs| ==>
      ProfileParser.ProfileOf(model, DivesOf(model, fields, recs)[k], ProfileSpec.RESET) ==
        ProfileParser.Result(ProfileParser.Success, ProfileSpec.Run(ProfileSpec.ConfigOf(model), ProfileSpec.RESET, recs[k]))
  {
    hide ProfileSpec.Run, ProfileParser.ProfileOf, ProfileTheorems.WithHeader, DtiCodec.EncodeAll, DtiTables.HeaderSize;
    hide DiveExtract.WellFormedDive, DtiCodec.WellFormed, DtiTables.Table, DtiTables.Valid;
    forall k | 0 <= k < |recs|
      ensures DiveExtract.WellFormedDive(DivesOf(model, fields, recs)[k])
      ensures ProfileParser.ProfileOf(model, DivesOf(model, fields, recs)[k], ProfileSpec.RESET) ==
        ProfileParser.Result(ProfileParser.Success, ProfileSpec.Run(ProfileSpec.ConfigOf(model), ProfileSpec.RESET, recs[k]))
    {
      DownloadedProfile(model, fields[k], recs[k]);
    }
  }

  /** The whole download: the client receives the bytes of the device's dives, the splitter delivers as many
      slices as there are dives, and the k-th parses with success to the waypoints of recs[k]. */
  lemma DownloadedRecords(model: DtiTables.Model, fields: seq<seq<Byte>>, recs: seq<seq<DtiCodec.Record>>,
                          arrivals: seq<DeviceTransfer.Arrival>, csize: nat, events: seq<Event>, after: seq<Event>)
    requires DtiTables.Valid(DtiTables.LayoutOf(model)) && Dives(model, fields, recs) && recs != []
    requires Base64.EncodedLength(|DiveExtract.Concat(DivesOf(model, fields, recs))|) < 0x8000_0000
    requires var bytes := DiveExtract.Concat(DivesOf(model, fields, recs));
      var run := DeviceTransfer.Receive(bytes, arrivals, csize, |bytes|, 0, DeviceTransfer.Never, 1);
      && run.code.Done?
      && DeviceTransfer.Join(run.chunks) != []
      && Delivers(events, SmartiServer.DataReply(DeviceTransfer.Join(run.chunks)), after)
    ensures var bytes := DiveExtract.Concat(DivesOf(model, fields, recs));
      var x := DiveExtract.ExtractFrom(bytes, 0);
      && ReceiveReply(events) == Transfer(Received(Some(bytes)), after)
      && x.code.Success? && |x.dives| == |recs|
      && forall k :: 0 <= k < |recs| ==>
           ProfileParser.ProfileOf(model, x.dives[k].data, ProfileSpec.RESET) ==
             ProfileParser.Result(ProfileParser.Success,
                                  ProfileSpec.Run(ProfileSpec.ConfigOf(model), ProfileSpec.RESET, recs[k]))
  {
    hide *;
    var ds := DivesOf(model, fields, recs);
    DivesWellFormed(model, fields, recs);
    DownloadedDives(ds, arrivals, csize, events, after);
    DiveExtract.CallbacksIndex(ds);
  }

  lemma HeaderRoom(model: DtiTables.Model)
    ensures DtiTables.HeaderSize(model) >= 92
  {
  }
}
