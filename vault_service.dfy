/**
 * The vault service: archiving an episode reports a fixed sequence of
 * progress lines, rejects episode "0" after the first line, and on
 * success returns the confirmation id, the vault path and the timestamp.
 * The clock, `Date.now()` and the random suffix are parameters.
 */
module VaultService {
  import opened Wrappers
  import opened JsText

  datatype ArchivePayload = ArchivePayload(episodeNumber: string, theme: string, tags: seq<string>)

  datatype ArchiveResult = ArchiveResult(confirmationId: string, vaultPath: string, timestamp: string)

  const InitiatingLine: string := ">> INITIATING VAULT CONNECTION..."
  const EncryptingLine: string := ">> ENCRYPTING ASSET BUNDLE (AES-256)..."
  const GeneratingLine: string := ">> GENERATING SECURE TIMESTAMP & HASH..."
  const CommitLine: string := ">> COMMIT COMPLETE. ARCHIVAL SECURED."
  const RejectionMessage: string := "Invalid Episode Number. Archival rejected by Vault protocol."
  const FailurePrefix: string := ">> ARCHIVAL FAILED: "

  /** `s.replace(/\s+/g, '-')`: every maximal run of whitespace becomes one hyphen. */
  function Hyphenate(s: string): (r: string)
    ensures forall k :: 0 <= k < |r| ==> !IsSpace(r[k])
    ensures forall k :: 0 <= k < |r| ==> r[k] == '-' || r[k] in s
    decreases |s|
  {
    if s == [] then []
    else if IsSpace(s[0]) then
      TrimStartShape(s);
      var rest := TrimStart(s);
      assert forall c :: c in rest ==> c in s;
      "-" + Hyphenate(rest)
    else
      [s[0]] + Hyphenate(s[1..])
  }

  /** Text without whitespace is left as it is. */
  lemma {:induction false} HyphenateNoSpace(s: string)
    requires forall k :: 0 <= k < |s| ==> !IsSpace(s[k])
    ensures Hyphenate(s) == s
  {
    if s != [] {
      HyphenateNoSpace(s[1..]);
    }
  }

  /** The theme's path segment: lower-cased, each whitespace run replaced by a hyphen. */
  function Slug(theme: string): (r: string)
    ensures forall k :: 0 <= k < |r| ==> !IsSpace(r[k]) && !('A' <= r[k] <= 'Z')
  {
    var lower := Lower(theme);
    assert forall c :: c in lower ==> !('A' <= c <= 'Z');
    Hyphenate(lower)
  }

  /** A slug is its own slug. */
  lemma SlugIdempotent(theme: string)
    ensures Slug(Slug(theme)) == Slug(theme)
  {
    var s := Slug(theme);
    assert Lower(s) == s;
    HyphenateNoSpace(s);
  }

  /**
   * A word, then a run of whitespace, then text not starting with
   * whitespace: the run becomes one hyphen after the word, whatever its length.
   */
  lemma {:induction false} HyphenateRun(a: string, w: string, b: string)
    requires forall k :: 0 <= k < |a| ==> !IsSpace(a[k])
    requires w != [] && AllSpace(w)
    requires b != [] ==> !IsSpace(b[0])
    ensures Hyphenate(a + w + b) == a + "-" + Hyphenate(b)
  {
    if a == [] {
      assert a + w + b == w + b;
      assert (w + b)[0] == w[0];
      TrimStartRun(w, b);
    } else {
      assert (a + w + b)[1..] == a[1..] + w + b;
      HyphenateRun(a[1..], w, b);
    }
  }

  /**
   * The slug of a theme: a whitespace-free word is lower-cased, and a
   * whitespace run after it becomes one hyphen before the rest's slug.
   */
  lemma SlugRun(a: string, w: string, b: string)
    requires forall k :: 0 <= k < |a| ==> !IsSpace(a[k])
    requires w != [] && AllSpace(w)
    requires b != [] ==> !IsSpace(b[0])
    ensures Slug(a + w + b) == Lower(a) + "-" + Slug(b)
  {
    assert Lower(a + w + b) == Lower(a) + Lower(w) + Lower(b);
    HyphenateRun(Lower(a), Lower(w), Lower(b));
  }

  /** A lower-case ASCII word holds no whitespace. */
  lemma LowerWordNoSpace(s: string)
    requires forall k :: 0 <= k < |s| ==> 'a' <= s[k] <= 'z'
    ensures forall k :: 0 <= k < |s| ==> !IsSpace(s[k])
  {
  }

  /** "Civic Tech" lower-cased is the two lower-case words with the space between them. */
  lemma LowerCivicTech()
    ensures Lower("Civic Tech") == "civic" + " " + "tech"
  {
  }

  /** The two words joined by a hyphen spell "civic-tech". */
  lemma HyphenatedCivicTech()
    ensures "civic" + "-" + "tech" == "civic-tech"
  {
  }

  /** The theme "Civic Tech" is archived under "civic-tech". */
  lemma CivicTechSlug()
    ensures Slug("Civic Tech") == "civic-tech"
  {
    LowerCivicTech();
    LowerWordNoSpace("civic");
    LowerWordNoSpace("tech");
    HyphenateRun("civic", " ", "tech");
    HyphenateNoSpace("tech");
    HyphenatedCivicTech();
  }

  /** The date part of an ISO 8601 timestamp: the text before its first `T`. */
  function DatePart(timestamp: string): (r: string)
    ensures 'T' !in r && StartsWith(timestamp, r)
    ensures |r| < |timestamp| ==> timestamp[|r|] == 'T'
  {
    Before(timestamp, 'T')
  }

  /**
   * `/vault/<slug>/<date>/GN-Ep<episode>.zip.aes`: the slug comes right after
   * the `/vault/` root, the name ends in `.zip.aes`, and the path has no
   * whitespace unless the timestamp or the episode number brought some.
   */
  function VaultPath(payload: ArchivePayload, timestamp: string): (r: string)
    ensures |r| > 8 + |Slug(payload.theme)|
    ensures StartsWith(r, "/vault/") && r[7..7 + |Slug(payload.theme)|] == Slug(payload.theme)
    ensures |r| >= 8 && r[|r| - 8..] == ".zip.aes"
    ensures r[7 + |Slug(payload.theme)|..] == "/" + DatePart(timestamp) + "/GN-Ep" + payload.episodeNumber + ".zip.aes"
  {
    var slug := Slug(payload.theme);
    var front := "/" + DatePart(timestamp) + "/GN-Ep" + payload.episodeNumber;
    var tail := front + ".zip.aes";
    ThreePieces("/vault/", slug, tail);
    ThreePieces("/vault/" + slug, front, ".zip.aes");
    assert "/vault/" + slug + tail == "/vault/" + slug + front + ".zip.aes";
    "/vault/" + slug + tail
  }

  /** The pieces of a three-part concatenation are found at their offsets. */
  lemma ThreePieces(a: string, b: string, c: string)
    ensures (a + b + c)[..|a|] == a
    ensures (a + b + c)[|a|..|a| + |b|] == b
    ensures (a + b + c)[|a| + |b|..] == c
  {
  }

  /** A slug holds a `/` only if the theme did: lower-casing and hyphenation bring none in. */
  lemma SlugNoSlash(theme: string)
    requires '/' !in theme
    ensures '/' !in Slug(theme)
  {
    var lower := Lower(theme);
    assert '/' !in lower by {
      forall k | 0 <= k < |lower|
        ensures lower[k] != '/'
      {
        assert lower[k] == LowerChar(theme[k]) && theme[k] in theme;
      }
    }
    assert Slug(theme) == Hyphenate(lower);
  }

  /**
   * Splitting the vault path on `/` gives back its segments: the empty root,
   * `vault`, the slug, the date and the file name, provided the theme, the
   * timestamp and the episode number hold no `/` themselves.
   */
  lemma VaultPathSegments(payload: ArchivePayload, timestamp: string)
    requires '/' !in payload.theme && '/' !in timestamp && '/' !in payload.episodeNumber
    ensures Split(VaultPath(payload, timestamp), '/') ==
      ["", "vault", Slug(payload.theme), DatePart(timestamp), "GN-Ep" + payload.episodeNumber + ".zip.aes"]
  {
    var date := DatePart(timestamp);
    SlugNoSlash(payload.theme);
    assert '/' !in date by {
      assert date == timestamp[..|date|];
    }
    FileNameNoSlash(payload.episodeNumber);
    VaultPathJoined(payload, timestamp);
    SplitJoin(["", "vault", Slug(payload.theme), date, "GN-Ep" + payload.episodeNumber + ".zip.aes"], '/');
  }

  /** The vault path is its five segments joined with `/`. */
  lemma VaultPathJoined(payload: ArchivePayload, timestamp: string)
    ensures VaultPath(payload, timestamp) ==
      Join(["", "vault", Slug(payload.theme), DatePart(timestamp), "GN-Ep" + payload.episodeNumber + ".zip.aes"], '/')
  {
    var slug, date, file := Slug(payload.theme), DatePart(timestamp), "GN-Ep" + payload.episodeNumber + ".zip.aes";
    JoinFive("", "vault", slug, date, file);
    PathHead();
    PathTail(date, payload.episodeNumber);
  }

  /** Joining five segments puts one separator between neighbours. */
  lemma JoinFive(a: string, b: string, c: string, d: string, e: string)
    ensures Join([a, b, c, d, e], '/') == a + "/" + (b + "/" + (c + "/" + (d + "/" + e)))
  {
    assert Join([e], '/') == e;
    assert Join([d, e], '/') == d + "/" + e by {
      assert [d, e][1..] == [e];
    }
    assert Join([c, d, e], '/') == c + "/" + (d + "/" + e) by {
      assert [c, d, e][1..] == [d, e];
    }
    assert Join([b, c, d, e], '/') == b + "/" + (c + "/" + (d + "/" + e)) by {
      assert [b, c, d, e][1..] == [c, d, e];
    }
    assert [a, b, c, d, e][1..] == [b, c, d, e];
  }

  /** The root and `vault` joined with `/` give the path's fixed head. */
  lemma PathHead()
    ensures "" + "/" + "vault" == "/vault"
  {
  }

  /** The date and the file name joined with `/` give the path's tail. */
  lemma PathTail(date: string, episodeNumber: string)
    ensures "/" + date + "/GN-Ep" + episodeNumber + ".zip.aes" == "/" + date + "/" + ("GN-Ep" + episodeNumber + ".zip.aes")
  {
    assert "/GN-Ep" == "/" + "GN-Ep";
  }

  /** The file name `GN-Ep<episode>.zip.aes` holds a `/` only if the episode number did. */
  lemma FileNameNoSlash(episodeNumber: string)
    requires '/' !in episodeNumber
    ensures '/' !in "GN-Ep" + episodeNumber + ".zip.aes"
  {
    var file := "GN-Ep" + episodeNumber + ".zip.aes";
    forall k | 0 <= k < |file|
      ensures file[k] != '/'
    {
      if 5 <= k < 5 + |episodeNumber| {
        assert file[k] == episodeNumber[k - 5];
      }
    }
  }

  /** Text with no whitespace character. */
  predicate SpaceFree(s: string) {
    forall k :: 0 <= k < |s| ==> !IsSpace(s[k])
  }

  /** Joining whitespace-free texts gives whitespace-free text. */
  lemma SpaceFreeConcat(a: string, b: string)
    requires SpaceFree(a) && SpaceFree(b)
    ensures SpaceFree(a + b)
  {
    forall k | 0 <= k < |a + b|
      ensures !IsSpace((a + b)[k])
    {
      if k >= |a| {
        assert (a + b)[k] == b[k - |a|];
      }
    }
  }

  /** The vault path has no whitespace unless the timestamp or the episode number brought some. */
  lemma VaultPathSpaceFree(payload: ArchivePayload, timestamp: string)
    requires SpaceFree(timestamp) && SpaceFree(payload.episodeNumber)
    ensures SpaceFree(VaultPath(payload, timestamp))
  {
    var slug, date := Slug(payload.theme), DatePart(timestamp);
    assert SpaceFree(date) by {
      assert date == timestamp[..|date|];
    }
    PathLiteralsSpaceFree();
    var front := "/" + date + "/GN-Ep" + payload.episodeNumber;
    SpaceFreeConcat("/", date);
    SpaceFreeConcat("/" + date, "/GN-Ep");
    SpaceFreeConcat("/" + date + "/GN-Ep", payload.episodeNumber);
    SpaceFreeConcat(front, ".zip.aes");
    SpaceFreeConcat("/vault/", slug);
    SpaceFreeConcat("/vault/" + slug, front + ".zip.aes");
  }


  /** The fixed pieces of the vault path hold no whitespace. */
  lemma PathLiteralsSpaceFree()
    ensures SpaceFree("/vault/") && SpaceFree("/") && SpaceFree("/GN-Ep") && SpaceFree(".zip.aes")
  {
  }

  /**
   * `VAULT-CONF-<milliseconds>-<suffix in capitals>`; the suffix stands for
   * the random base-36 digits. The clock's digits follow the prefix and the
   * id holds no lower-case ASCII letter.
   */
  function ConfirmationId(nowMillis: nat, suffix: string): (r: string)
    ensures StartsWith(r, "VAULT-CONF-") && |r| > 11 + |NatToString(nowMillis)|
    ensures r[11..11 + |NatToString(nowMillis)|] == NatToString(nowMillis)
    ensures r[11 + |NatToString(nowMillis)|] == '-'
    ensures NoLowerAscii(r)
  {
    var n, u := NatToString(nowMillis), Upper(suffix);
    var r := "VAULT-CONF-" + n + "-" + u;
    assert r[11..11 + |n|] == n;
    IdPrefixNoLowerAscii(n);
    assert NoLowerAscii(u);
    NoLowerAsciiConcat("VAULT-CONF-" + n + "-", u);
    r
  }

  /** Text with no lower-case ASCII letter. */
  predicate NoLowerAscii(s: string) {
    forall k :: 0 <= k < |s| ==> !('a' <= s[k] <= 'z')
  }

  /** Joining texts without lower-case ASCII letters keeps them out. */
  lemma NoLowerAsciiConcat(a: string, b: string)
    requires NoLowerAscii(a) && NoLowerAscii(b)
    ensures NoLowerAscii(a + b)
  {
    forall k | 0 <= k < |a + b|
      ensures !('a' <= (a + b)[k] <= 'z')
    {
      if k >= |a| {
        assert (a + b)[k] == b[k - |a|];
      }
    }
  }

  /** A confirmation id up to its suffix: the prefix, the clock's digits and a hyphen. */
  lemma IdPrefixNoLowerAscii(digits: string)
    requires forall k :: 0 <= k < |digits| ==> '0' <= digits[k] <= '9'
    ensures NoLowerAscii("VAULT-CONF-" + digits + "-")
  {
    assert NoLowerAscii("VAULT-CONF-") && NoLowerAscii("-");
    NoLowerAsciiConcat("VAULT-CONF-", digits);
    NoLowerAsciiConcat("VAULT-CONF-" + digits, "-");
  }

  /** The progress lines an archival of this episode reports, in order. */
  function ArchiveLog(episodeNumber: string): seq<string> {
    if episodeNumber == "0" then [InitiatingLine, FailurePrefix + RejectionMessage]
    else [InitiatingLine, EncryptingLine, GeneratingLine, CommitLine]
  }

  /**
   * `archiveToVault`: reports progress by appending to `log`. Episode "0"
   * fails after the first line with the rejection message, reported as a
   * failure line; any other episode reports all four lines and returns the
   * result built from the one timestamp.
   */
  method ArchiveToVault(payload: ArchivePayload, timestamp: string, nowMillis: nat, suffix: string)
    returns (log: seq<string>, r: Result<ArchiveResult>)
    ensures log == ArchiveLog(payload.episodeNumber)
    ensures r.Failure? <==> payload.episodeNumber == "0"
    ensures r.Failure? ==> r.error == RejectionMessage
    ensures r.Success? ==> r.value == ArchiveResult(ConfirmationId(nowMillis, suffix), VaultPath(payload, timestamp), timestamp)
  {
    log := [InitiatingLine];
    if payload.episodeNumber == "0" {
      log := log + [FailurePrefix + RejectionMessage];
      return log, Failure(RejectionMessage);
    }
    log := log + [EncryptingLine];
    log := log + [GeneratingLine];
    var confirmationId := ConfirmationId(nowMillis, suffix);
    var vaultPath := VaultPath(payload, timestamp);
    log := log + [CommitLine];
    r := Success(ArchiveResult(confirmationId, vaultPath, timestamp));
  }

  /** Every archival starts with the connection line; a rejected one reports two lines, an accepted one four. */
  lemma ArchiveLogShape(episodeNumber: string)
    ensures ArchiveLog(episodeNumber) != [] && ArchiveLog(episodeNumber)[0] == InitiatingLine
    ensures |ArchiveLog(episodeNumber)| == if episodeNumber == "0" then 2 else 4
    ensures ArchiveLog(episodeNumber)[|ArchiveLog(episodeNumber)| - 1] ==
      if episodeNumber == "0" then FailurePrefix + RejectionMessage else CommitLine
  {
  }

  lemma InitiatingLineNotFailed()
    ensures !Contains(InitiatingLine, "FAILED")
  {
    NotContainsWithout(InitiatingLine, "FAILED", 0);
  }

  lemma EncryptingLineNotFailed()
    ensures !Contains(EncryptingLine, "FAILED")
  {
    NotContainsWithout(EncryptingLine, "FAILED", 0);
  }

  lemma GeneratingLineNotFailed()
    ensures !Contains(GeneratingLine, "FAILED")
  {
    NotContainsWithout(GeneratingLine, "FAILED", 0);
  }

  lemma CommitLineNotFailed()
    ensures !Contains(CommitLine, "FAILED")
  {
    NotContainsWithout(CommitLine, "FAILED", 0);
  }

  /** No progress line other than the failure line contains "FAILED". */
  lemma ProgressLinesNotFailed()
    ensures !Contains(InitiatingLine, "FAILED") && !Contains(EncryptingLine, "FAILED")
    ensures !Contains(GeneratingLine, "FAILED") && !Contains(CommitLine, "FAILED")
  {
    InitiatingLineNotFailed();
    EncryptingLineNotFailed();
    GeneratingLineNotFailed();
    CommitLineNotFailed();
  }

  /** The failure line contains "FAILED". */
  lemma FailureLineFailed(message: string)
    ensures Contains(FailurePrefix + message, "FAILED")
  {
    assert (FailurePrefix + message)[12..18] == "FAILED";
    assert OccursAt(FailurePrefix + message, "FAILED", 12);
  }

  /**
   * The log view colours a line as an error when it contains "FAILED":
   * exactly the second line of a rejected archival is coloured so.
   */
  lemma FailedLinesColoured(episodeNumber: string)
    ensures forall i :: 0 <= i < |ArchiveLog(episodeNumber)| ==>
      (Contains(ArchiveLog(episodeNumber)[i], "FAILED") <==> episodeNumber == "0" && i == 1)
  {
    ProgressLinesNotFailed();
    FailureLineFailed(RejectionMessage);
  }

  /** The clock's digits, read up to the next `-`, give back the milliseconds. */
  lemma ConfirmationIdClock(nowMillis: nat, suffix: string)
    ensures var c := ConfirmationId(nowMillis, suffix);
      DigitsValue(Before(c[11..], '-'), 10) == nowMillis
  {
    var c := ConfirmationId(nowMillis, suffix);
    var n := NatToString(nowMillis);
    var x := c[11..];
    var b := Before(x, '-');
    assert x[..|n|] == n && x[|n|] == '-';
    assert b == n;
    DigitsValueNatToString(nowMillis);
  }
}
