/**
 * The playlist bundler: adds an episode id to the end of the selected
 * playlist unless it is already there, leaving every other playlist, the
 * number of playlists and their order alone.
 */
module PlaylistBundler {
  import opened Wrappers

  datatype Playlist = Playlist(id: string, name: string, videoIds: seq<string>)

  /** The playlists the bundler starts with. */
  const InitialPlaylists: seq<Playlist> := [
    Playlist("PL-C1", "Cycle1_CollapseToCurriculum", ["Ep01", "Ep02", "Ep03", "Ep15"]),
    Playlist("PL-C2", "Cycle2_ConstitutionToDiaspora", ["Ep16", "Ep24", "Ep30"]),
    Playlist("PL-SO", "Sponsor_Onboarding", ["S01", "S02"]),
    Playlist("PL-FS", "FoodSafety_Surveillance", ["Ep42", "Ep48"])
  ]

  /** One playlist after the update: the episode is appended when this is the selected, episode-less playlist. */
  function AddToPlaylist(p: Playlist, selectedId: string, episodeId: string): Playlist
  {
    if p.id == selectedId && episodeId !in p.videoIds then p.(videoIds := p.videoIds + [episodeId]) else p
  }

  /**
   * The playlist update: only playlists whose id is the selected one can
   * change, and such a playlist afterwards holds the episode, appended at
   * the end when it was missing; count, order, ids and names are kept.
   */
  function AddEpisode(playlists: seq<Playlist>, selectedId: string, episodeId: string): (r: seq<Playlist>)
    ensures |r| == |playlists|
    ensures forall i :: 0 <= i < |r| ==> r[i].id == playlists[i].id && r[i].name == playlists[i].name
    ensures forall i :: 0 <= i < |r| && playlists[i].id != selectedId ==> r[i] == playlists[i]
    ensures forall i :: 0 <= i < |r| && playlists[i].id == selectedId ==>
      && episodeId in r[i].videoIds
      && (episodeId in playlists[i].videoIds ==> r[i] == playlists[i])
      && (episodeId !in playlists[i].videoIds ==> r[i].videoIds == playlists[i].videoIds + [episodeId])
  {
    if playlists == [] then []
    else [AddToPlaylist(playlists[0], selectedId, episodeId)] + AddEpisode(playlists[1..], selectedId, episodeId)
  }

  /** Adding the same episode to the same playlist a second time changes nothing. */
  lemma {:induction false} AddEpisodeIdempotent(playlists: seq<Playlist>, selectedId: string, episodeId: string)
    ensures var once := AddEpisode(playlists, selectedId, episodeId);
      AddEpisode(once, selectedId, episodeId) == once
  {
    if playlists != [] {
      AddEpisodeIdempotent(playlists[1..], selectedId, episodeId);
    }
  }

  /** The last bundling shown under the form. */
  datatype LastAdded = LastAdded(playlistName: string, episodeId: string)

  /** The bundler's state: playlists, the selected playlist, the episode-id input and the last bundling. */
  datatype BundlerState = BundlerState(
    playlists: seq<Playlist>,
    selectedId: string,
    episodeId: string,
    lastAdded: Option<LastAdded>)

  /** Playlist `i` is the first one with the given id. */
  predicate FirstWithId(playlists: seq<Playlist>, id: string, i: int) {
    && 0 <= i < |playlists|
    && playlists[i].id == id
    && forall j :: 0 <= j < i ==> playlists[j].id != id
  }

  /**
   * `playlists.find(p => p.id === selectedId)?.name || ''`: the name of the
   * first playlist with the selected id, or empty when there is none.
   */
  function SelectedName(playlists: seq<Playlist>, selectedId: string): (name: string)
    ensures forall i :: FirstWithId(playlists, selectedId, i) ==> name == playlists[i].name
    ensures name != "" ==> exists i :: 0 <= i < |playlists| && playlists[i].id == selectedId && playlists[i].name == name
    ensures (forall i :: 0 <= i < |playlists| ==> playlists[i].id != selectedId) ==> name == ""
  {
    if playlists == [] then ""
    else if playlists[0].id == selectedId then playlists[0].name
    else
      var rest := SelectedName(playlists[1..], selectedId);
      assert forall i :: FirstWithId(playlists, selectedId, i) ==> FirstWithId(playlists[1..], selectedId, i - 1);
      rest
  }

  /**
   * `handleSubmit`: with an empty selection or episode id nothing changes;
   * otherwise the playlists are updated, the bundling is recorded with the
   * selected playlist's name, and the episode-id input is cleared.
   */
  function Submit(s: BundlerState): (r: BundlerState)
    ensures s.selectedId == "" || s.episodeId == "" ==> r == s
    ensures s.selectedId != "" && s.episodeId != "" ==>
      && r.playlists == AddEpisode(s.playlists, s.selectedId, s.episodeId)
      && r.selectedId == s.selectedId
      && r.episodeId == ""
      && r.lastAdded == Some(LastAdded(SelectedName(s.playlists, s.selectedId), s.episodeId))
  {
    if s.selectedId == "" || s.episodeId == "" then s
    else
      BundlerState(
        AddEpisode(s.playlists, s.selectedId, s.episodeId),
        s.selectedId,
        "",
        Some(LastAdded(SelectedName(s.playlists, s.selectedId), s.episodeId)))
  }

  /** Bundling "Ep56_CivicTech" into the first cycle appends it there and nowhere else. */
  lemma BundleIntoFirstCycle()
    ensures AddEpisode(InitialPlaylists, "PL-C1", "Ep56_CivicTech")[0].videoIds
      == ["Ep01", "Ep02", "Ep03", "Ep15", "Ep56_CivicTech"]
    ensures AddEpisode(InitialPlaylists, "PL-C1", "Ep56_CivicTech")[1..] == InitialPlaylists[1..]
  {
    var r := AddEpisode(InitialPlaylists, "PL-C1", "Ep56_CivicTech");
    assert "Ep56_CivicTech" !in InitialPlaylists[0].videoIds;
    assert forall i :: 1 <= i < |r| ==> InitialPlaylists[i].id != "PL-C1";
  }
}
