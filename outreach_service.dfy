/**
 * The outreach service: a broadcast is sent to its channels one after
 * the other, and each send reports its outcome to the caller in turn.
 * Only Email can fail; whether a particular Email send times out is a
 * random draw, given here as an oracle indexed by the send's position.
 */
module OutreachService {
  datatype BroadcastPayload = BroadcastPayload(episodeNumber: string, message: string, channels: seq<string>)

  datatype Status = Succeeded | Failed

  datatype BroadcastResult = BroadcastResult(channel: string, status: Status, message: string)

  const TimeoutMessage: string := "SMTP server connection timed out."

  function SuccessMessage(channel: string): string {
    "Broadcast to " + channel + " successful."
  }

  /**
   * `sendToChannel`: the report names the channel it was sent to; it is a
   * failure with the timeout message exactly when the channel is Email and
   * the draw came out as a timeout, and otherwise a success naming the channel.
   */
  function SendToChannel(channel: string, timedOut: bool): (r: BroadcastResult)
    ensures r.channel == channel
    ensures r.status == Failed <==> channel == "Email" && timedOut
    ensures r.status == Failed ==> r.message == TimeoutMessage
    ensures r.status == Succeeded ==> r.message == SuccessMessage(channel)
  {
    if channel == "Email" && timedOut then BroadcastResult(channel, Failed, TimeoutMessage)
    else BroadcastResult(channel, Succeeded, SuccessMessage(channel))
  }

  /** The reports of a broadcast, send `i` using draw `i`. */
  function Reports(channels: seq<string>, timedOut: nat -> bool): (r: seq<BroadcastResult>)
    ensures |r| == |channels|
    ensures forall i :: 0 <= i < |r| ==> r[i] == SendToChannel(channels[i], timedOut(i))
  {
    seq(|channels|, i requires 0 <= i < |channels| => SendToChannel(channels[i], timedOut(i)))
  }

  /**
   * `diasporaBroadcast`: the channels are sent to in the payload's order,
   * and `onProgress` is called once per channel with that channel's report;
   * the returned sequence is the calls to `onProgress`, in order.
   */
  method DiasporaBroadcast(payload: BroadcastPayload, timedOut: nat -> bool) returns (progress: seq<BroadcastResult>)
    ensures progress == Reports(payload.channels, timedOut)
  {
    progress := [];
    var i := 0;
    while i < |payload.channels|
      invariant 0 <= i <= |payload.channels|
      invariant progress == Reports(payload.channels[..i], timedOut)
    {
      var result := SendToChannel(payload.channels[i], timedOut(i));
      progress := progress + [result];
      i := i + 1;
    }
    assert payload.channels[..i] == payload.channels;
  }

  /**
   * Whatever the draws, there is one report per channel, in the channels'
   * order: a failed send does not stop the ones after it.
   */
  lemma ReportsFollowChannels(channels: seq<string>, a: nat -> bool, b: nat -> bool)
    ensures |Reports(channels, a)| == |Reports(channels, b)| == |channels|
    ensures forall i :: 0 <= i < |channels| ==>
      Reports(channels, a)[i].channel == Reports(channels, b)[i].channel == channels[i]
  {
  }

  /** A broadcast without Email always succeeds on every channel, whatever the draws. */
  lemma NoEmailNoFailure(channels: seq<string>, timedOut: nat -> bool)
    requires "Email" !in channels
    ensures forall i :: 0 <= i < |channels| ==>
      Reports(channels, timedOut)[i] == BroadcastResult(channels[i], Succeeded, SuccessMessage(channels[i]))
  {
    assert forall i :: 0 <= i < |channels| ==> channels[i] != "Email";
  }
}
