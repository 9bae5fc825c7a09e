/**
 * The diaspora broadcast form: the checked channels, in their fixed
 * order, are handed to the outreach service, whose reports become the
 * broadcast log.
 */
module DiasporaBroadcast {
  import opened OutreachService

  /** The three channel check boxes. */
  datatype ChannelFlags = ChannelFlags(whatsApp: bool, email: bool, flushingNode: bool)

  /** The channels in the order the form declares them. */
  const ChannelOrder: seq<string> := ["WhatsApp", "Email", "FlushingNode"]

  /** The form's initial choice: WhatsApp and Email. */
  const InitialFlags: ChannelFlags := ChannelFlags(true, true, false)

  function Checked(flags: ChannelFlags, channel: string): bool {
    match channel
    case "WhatsApp" => flags.whatsApp
    case "Email" => flags.email
    case "FlushingNode" => flags.flushingNode
    case _ => false
  }

  /** Position of a channel in the form's order. */
  function Rank(channel: string): nat {
    match channel
    case "WhatsApp" => 0
    case "Email" => 1
    case _ => 2
  }

  /**
   * The selected channels: exactly the checked ones, each once, in the
   * form's declaration order.
   */
  function SelectedChannels(flags: ChannelFlags): (r: seq<string>)
    ensures forall c :: c in r <==> c in ChannelOrder && Checked(flags, c)
    ensures forall i, j :: 0 <= i < j < |r| ==> Rank(r[i]) < Rank(r[j])
  {
    (if flags.whatsApp then ["WhatsApp"] else [])
    + (if flags.email then ["Email"] else [])
    + (if flags.flushingNode then ["FlushingNode"] else [])
  }

  /** No channel is selected exactly when no box is checked. */
  lemma NothingSelected(flags: ChannelFlags)
    ensures SelectedChannels(flags) == [] <==> !flags.whatsApp && !flags.email && !flags.flushingNode
  {
    if flags.whatsApp {
      assert "WhatsApp" in SelectedChannels(flags);
    } else if flags.email {
      assert "Email" in SelectedChannels(flags);
    } else if flags.flushingNode {
      assert "FlushingNode" in SelectedChannels(flags);
    }
  }

  /** The initial choice selects WhatsApp, then Email. */
  lemma InitialSelection()
    ensures SelectedChannels(InitialFlags) == ["WhatsApp", "Email"]
  {
  }

  /**
   * `handleSubmit`: with no channel checked nothing starts and the log is
   * untouched; otherwise the log is cleared and then holds one report per
   * selected channel, in order.
   */
  method SubmitBroadcast(episodeNumber: string, message: string, flags: ChannelFlags,
                         log: seq<BroadcastResult>, timedOut: nat -> bool)
    returns (started: bool, newLog: seq<BroadcastResult>)
    ensures started <==> SelectedChannels(flags) != []
    ensures !started ==> newLog == log
    ensures started ==> newLog == Reports(SelectedChannels(flags), timedOut)
  {
    var selected := SelectedChannels(flags);
    if |selected| == 0 {
      return false, log;
    }
    started := true;
    newLog := OutreachService.DiasporaBroadcast(BroadcastPayload(episodeNumber, message, selected), timedOut);
  }
}
