/**
 * The sponsor service: an in-memory table of sponsors that a sync links
 * one sponsor to an episode, marking it onboarded.
 */
module SponsorService {
  import opened Wrappers

  datatype SponsorStatus = Pending | Active | Onboarded

  datatype Sponsor = Sponsor(id: string, name: string, status: SponsorStatus, linkedEpisode: Option<string>)

  const InvalidEpisodeMessage: string := "Invalid Episode Number provided for sync."

  /** The table the service starts with. */
  const InitialSponsors: seq<Sponsor> := [
    Sponsor("sp_01", "FutureScape Analytics", Active, Some("Ep42")),
    Sponsor("sp_02", "Diaspora Connect Initiative", Pending, None),
    Sponsor("sp_03", "Civic Ledger Foundation", Onboarded, Some("Ep51")),
    Sponsor("sp_04", "NourishNet Systems", Pending, None),
    Sponsor("sp_05", "Veritas Chain", Active, None)
  ]

  /** One row after linking: the matching row is onboarded with the episode, any other is kept. */
  function LinkRow(sponsor: Sponsor, sponsorId: string, episode: string): Sponsor {
    if sponsor.id == sponsorId then sponsor.(status := Onboarded, linkedEpisode := Some(episode)) else sponsor
  }

  /**
   * The table after linking: same length and ids in the same order; every
   * row with the id is onboarded and linked to the episode, whatever it
   * was before, keeping its name; every other row is unchanged.
   */
  function LinkRows(rows: seq<Sponsor>, sponsorId: string, episode: string): (r: seq<Sponsor>)
    ensures |r| == |rows|
    ensures forall i :: 0 <= i < |r| ==> r[i].id == rows[i].id && r[i].name == rows[i].name
    ensures forall i :: 0 <= i < |r| && rows[i].id == sponsorId ==>
      r[i].status == Onboarded && r[i].linkedEpisode == Some(episode)
    ensures forall i :: 0 <= i < |r| && rows[i].id != sponsorId ==> r[i] == rows[i]
  {
    seq(|rows|, i requires 0 <= i < |rows| => LinkRow(rows[i], sponsorId, episode))
  }

  /** Linking the same sponsor to the same episode twice gives the table linking once gives. */
  lemma LinkRowsIdempotent(rows: seq<Sponsor>, sponsorId: string, episode: string)
    ensures LinkRows(LinkRows(rows, sponsorId, episode), sponsorId, episode) == LinkRows(rows, sponsorId, episode)
  {
    var once := LinkRows(rows, sponsorId, episode);
    var twice := LinkRows(once, sponsorId, episode);
    forall i | 0 <= i < |rows|
      ensures twice[i] == once[i]
    {
    }
  }

  /** An id that no row has leaves the table as it was. */
  lemma LinkRowsUnknownId(rows: seq<Sponsor>, sponsorId: string, episode: string)
    requires forall i :: 0 <= i < |rows| ==> rows[i].id != sponsorId
    ensures LinkRows(rows, sponsorId, episode) == rows
  {
  }

  /** The mutable table behind `getSponsors` and `linkSponsorToEpisode`. */
  class SponsorStore {
    var sponsors: seq<Sponsor>

    constructor ()
      ensures sponsors == InitialSponsors
    {
      sponsors := InitialSponsors;
    }

    /** `getSponsors`: a copy of the current table; the table itself is not changed. */
    method GetSponsors() returns (r: seq<Sponsor>)
      ensures r == sponsors
    {
      r := sponsors;
    }

    /**
     * `linkSponsorToEpisode`: the episode number "0" is rejected and the
     * table is kept; any other number links the sponsor to "Ep" followed by
     * the number, and the whole new table is returned.
     */
    method Link(sponsorId: string, episodeNumber: string) returns (r: Result<seq<Sponsor>>)
      modifies this
      ensures episodeNumber == "0" ==> r == Failure(InvalidEpisodeMessage) && sponsors == old(sponsors)
      ensures episodeNumber != "0" ==>
        && sponsors == LinkRows(old(sponsors), sponsorId, "Ep" + episodeNumber)
        && r == Success(sponsors)
    {
      if episodeNumber == "0" {
        return Failure(InvalidEpisodeMessage);
      }
      sponsors := LinkRows(sponsors, sponsorId, "Ep" + episodeNumber);
      r := Success(sponsors);
    }
  }

  /**
   * On the initial table, linking "sp_02" to episode 57 onboards it with
   * "Ep57", and a second identical link returns the same table.
   */
  method LinkTwice() returns (first: Result<seq<Sponsor>>, second: Result<seq<Sponsor>>, rejected: Result<seq<Sponsor>>)
    ensures first.Success? && |first.value| == |InitialSponsors|
    ensures first.value[1] == Sponsor("sp_02", "Diaspora Connect Initiative", Onboarded, Some("Ep57"))
    ensures first.value[0] == InitialSponsors[0] && first.value[2..] == InitialSponsors[2..]
    ensures second == first
    ensures rejected == Failure(InvalidEpisodeMessage)
  {
    var store := new SponsorStore();
    first := store.Link("sp_02", "57");
    assert "Ep" + "57" == "Ep57";
    assert first.value[2..] == InitialSponsors[2..];
    second := store.Link("sp_02", "57");
    LinkRowsIdempotent(InitialSponsors, "sp_02", "Ep57");
    rejected := store.Link("sp_02", "0");
  }
}
