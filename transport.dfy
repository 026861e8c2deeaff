/** The choice of the URL the mirror clone is made from. */
module Transport {
  import opened JsText

  /** The configuration entries the choice reads. USE_SSH_URL and
      GITHUB_USERNAME are the empty string when unset (an unset entry and an
      empty one behave alike in the two tests made on them); GITHUB_TOKEN is
      None when unset, which string concatenation prints as "undefined". */
  datatype Settings = Settings(useSshUrl: string, username: string, token: Option<string>)

  const SchemeSeparator := "://"

  /** A possibly unset string as JavaScript concatenation prints it. */
  function Printed(v: Option<string>): string
  {
    match v
    case None => "undefined"
    case Some(s) => s
  }

  /** `parts[k]` of a split, "undefined" past the end. */
  function Piece(parts: seq<string>, k: nat): string
  {
    if k < |parts| then parts[k] else "undefined"
  }

  /** The clone URL: the SSH URL when USE_SSH_URL is "true"; otherwise the
      HTTPS clone URL, rewritten to carry `username:token@` after its
      scheme when a user name is configured. */
  function CloneUrl(settings: Settings, cloneUrl: string, sshUrl: string): (url: string)
    ensures settings.useSshUrl == "true" ==> url == sshUrl
    ensures settings.useSshUrl != "true" && settings.username == "" ==> url == cloneUrl
  {
    if settings.useSshUrl == "true" then sshUrl
    else if settings.username == "" then cloneUrl
    else
      var parts := Split(cloneUrl, SchemeSeparator);
      Piece(parts, 0) + SchemeSeparator + settings.username + ":" + Printed(settings.token) + "@" + Piece(parts, 1)
  }

  /** The credentials that the rewrite inserts. */
  function Credentials(settings: Settings): string
  {
    settings.username + ":" + Printed(settings.token) + "@"
  }

  /** With a user name configured and no SSH, the URL is rebuilt from the
      first two pieces of its split on "://" around the credentials. */
  lemma RewrittenFromPieces(settings: Settings, cloneUrl: string, sshUrl: string)
    requires settings.useSshUrl != "true" && settings.username != ""
    ensures CloneUrl(settings, cloneUrl, sshUrl)
         == Piece(Split(cloneUrl, SchemeSeparator), 0) + SchemeSeparator + Credentials(settings)
            + Piece(Split(cloneUrl, SchemeSeparator), 1)
  {
  }

  /** The text up to the end of the first "://" at `i`. */
  lemma SchemePrefix(cloneUrl: string, i: nat)
    requires FindFirst(cloneUrl, SchemeSeparator) == Some(i)
    ensures cloneUrl[..i + 3] == cloneUrl[..i] + SchemeSeparator
  {
    assert cloneUrl[i..i + 3] == SchemeSeparator;
  }

  /** For a URL with a single "://", the rewrite inserts the credentials
      right after it and keeps every other character in place. */
  lemma CredentialsInsertedAfterScheme(settings: Settings, cloneUrl: string, sshUrl: string, i: nat)
    requires settings.useSshUrl != "true" && settings.username != ""
    requires FindFirst(cloneUrl, SchemeSeparator) == Some(i)
    requires !Contains(cloneUrl[i + 3..], SchemeSeparator)
    ensures CloneUrl(settings, cloneUrl, sshUrl)
         == cloneUrl[..i + 3] + Credentials(settings) + cloneUrl[i + 3..]
  {
    SplitAtOnlyOccurrence(cloneUrl, SchemeSeparator, i);
    SchemePrefix(cloneUrl, i);
    RewrittenFromPieces(settings, cloneUrl, sshUrl);
  }

  /** A URL without "://" keeps its whole text as the part before the
      credentials, and `url[1]` reads as "undefined" after them. */
  lemma CredentialsWithoutScheme(settings: Settings, cloneUrl: string, sshUrl: string)
    requires settings.useSshUrl != "true" && settings.username != ""
    requires !Contains(cloneUrl, SchemeSeparator)
    ensures CloneUrl(settings, cloneUrl, sshUrl)
         == cloneUrl + SchemeSeparator + Credentials(settings) + "undefined"
  {
    assert Split(cloneUrl, SchemeSeparator) == [cloneUrl];
  }

  /** With a second "://", everything from that second separator on is
      dropped: only the first two pieces of the split are kept. */
  lemma CredentialsDropTextAfterSecondScheme(settings: Settings, cloneUrl: string, sshUrl: string, i: nat, j: nat)
    requires settings.useSshUrl != "true" && settings.username != ""
    requires FindFirst(cloneUrl, SchemeSeparator) == Some(i)
    requires FindFirst(cloneUrl[i + 3..], SchemeSeparator) == Some(j)
    ensures CloneUrl(settings, cloneUrl, sshUrl)
         == cloneUrl[..i + 3] + Credentials(settings) + cloneUrl[i + 3..][..j]
  {
    FirstTwoPieces(cloneUrl, SchemeSeparator, i, j);
    SchemePrefix(cloneUrl, i);
    RewrittenFromPieces(settings, cloneUrl, sshUrl);
  }
}
