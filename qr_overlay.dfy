/**
 * The QR overlay generator: the link a QR code points to, chosen by the
 * destination, and the check made before the QR service is asked for it.
 */
module QrOverlay {
  import opened Wrappers

  /** The form: episode number, destination name and custom URL, all as entered. */
  datatype QrConfig = QrConfig(episodeNumber: string, linkDestination: string, customUrl: string)

  const Site: string := "https://example.com/"
  const MissingCustomUrlMessage: string := "A custom URL must be provided."

  /** The path segment of each fixed destination, or None for `custom` and unknown names. */
  function FixedPath(destination: string): Option<string>
  {
    if destination == "reform_form" then Some("reform-form")
    else if destination == "sponsor_grid" then Some("sponsor-grid")
    else if destination == "curriculum" then Some("curriculum")
    else None
  }

  /**
   * The target URL: a page of the site for the three fixed destinations,
   * the custom URL for `custom`, and the empty string for anything else.
   */
  function TargetUrl(config: QrConfig): (url: string)
    ensures FixedPath(config.linkDestination).Some? ==>
      url == Site + FixedPath(config.linkDestination).value + "/ep" + config.episodeNumber
    ensures config.linkDestination == "custom" ==> url == config.customUrl
    ensures FixedPath(config.linkDestination).None? && config.linkDestination != "custom" ==> url == ""
  {
    match config.linkDestination
    case "reform_form" => Site + "reform-form/ep" + config.episodeNumber
    case "sponsor_grid" => Site + "sponsor-grid/ep" + config.episodeNumber
    case "curriculum" => Site + "curriculum/ep" + config.episodeNumber
    case "custom" => config.customUrl
    case _ => ""
  }

  /**
   * Two configurations with fixed destinations lead to the same URL only
   * when they name the same destination and the same episode.
   */
  lemma FixedTargetsDistinct(a: QrConfig, b: QrConfig)
    requires FixedPath(a.linkDestination).Some? && FixedPath(b.linkDestination).Some?
    requires TargetUrl(a) == TargetUrl(b)
    ensures a.linkDestination == b.linkDestination
    ensures a.episodeNumber == b.episodeNumber
  {
    var ua, ub := TargetUrl(a), TargetUrl(b);
    assert ua[20] == FixedPath(a.linkDestination).value[0];
    assert ub[20] == FixedPath(b.linkDestination).value[0];
    var pa := Site + FixedPath(a.linkDestination).value + "/ep";
    var pb := Site + FixedPath(b.linkDestination).value + "/ep";
    assert |pa| == |pb|;
    assert a.episodeNumber == ua[|pa|..];
    assert b.episodeNumber == ub[|pb|..];
  }

  /** What a submission leads to. */
  datatype QrRequest = QrRequest(url: string)

  /** The generator's visible state: error text, loading flag and generated image. */
  datatype QrView = QrView(error: Option<string>, loading: bool, qrCodeUrl: Option<string>)

  /**
   * `handleSubmit` up to the request: `custom` with an empty custom URL
   * sets the error and sends nothing, leaving the rest of the view as it
   * was; otherwise the error and the old image are cleared, loading starts
   * and the QR service is asked for the target URL.
   */
  function SubmitQr(config: QrConfig, view: QrView): (r: (QrView, Option<QrRequest>))
    ensures config.linkDestination == "custom" && config.customUrl == "" <==> r.1.None?
    ensures r.1.None? ==> r.0 == view.(error := Some(MissingCustomUrlMessage))
    ensures r.1.Some? ==> r.1.value.url == TargetUrl(config) && r.0 == QrView(None, true, None)
  {
    if config.linkDestination == "custom" && config.customUrl == "" then
      (view.(error := Some(MissingCustomUrlMessage)), None)
    else
      (QrView(None, true, None), Some(QrRequest(TargetUrl(config))))
  }

  /** A request is never sent for an empty URL except when the destination name is unknown. */
  lemma RequestedUrlNonEmpty(config: QrConfig, view: QrView)
    requires SubmitQr(config, view).1.Some?
    requires FixedPath(config.linkDestination).Some? || config.linkDestination == "custom"
    ensures SubmitQr(config, view).1.value.url != ""
  {
    if FixedPath(config.linkDestination).Some? {
      assert |TargetUrl(config)| >= |Site|;
    }
  }
}
