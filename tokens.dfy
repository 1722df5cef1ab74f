/**
 * The download-token table `file_tokens`: a token names a file under the web
 * serving directory and the name to deliver it under, until an expiry time
 * one day after its creation. The clock is a parameter (whole seconds).
 */
module Tokens {
  import opened Wrappers
  import opened Limits

  /** One entry of the table. */
  datatype TokenEntry = TokenEntry(filePath: string, filename: string, clientIp: Option<string>, expireTime: int)

  /**
   * What `download_file` serves for a token at time `now`, given the paths
   * that exist: None (a 404) when the token is unknown, expired
   * (`expire_time < now`) or its file is gone; otherwise the file and the
   * name to deliver it under.
   */
  function Serve(tokens: map<string, TokenEntry>, token: string, now: int, existing: set<string>): (r: Option<(string, string)>)
    ensures r.Some? <==> token in tokens && now <= tokens[token].expireTime && tokens[token].filePath in existing
    ensures r.Some? ==> r.value == (tokens[token].filePath, tokens[token].filename)
  {
    if token !in tokens || tokens[token].expireTime < now then None
    else
      var e := tokens[token];
      if e.filePath !in existing then None else Some((e.filePath, e.filename))
  }

  class TokenTable {
    var tokens: map<string, TokenEntry>

    /** The table starts empty. */
    constructor ()
      ensures tokens == map[]
    {
      tokens := map[];
    }

    /**
     * `generate_download_token`: record `token` (a fresh uuid4) for the file,
     * to expire `FILE_EXPIRATION_TIME` seconds after `now`; no other entry
     * changes.
     */
    method Generate(token: string, filePath: string, filename: string, clientIp: Option<string>, now: int)
      modifies this
      ensures tokens == old(tokens)[token := TokenEntry(filePath, filename, clientIp, now + FileExpirationTime)]
      ensures forall t :: t in old(tokens) && t != token ==> t in tokens && tokens[t] == old(tokens)[t]
    {
      tokens := tokens[token := TokenEntry(filePath, filename, clientIp, now + FileExpirationTime)];
    }

    /** The timer's `file_tokens.pop(token, None)`: the token goes, the others stay. */
    method Expire(token: string)
      modifies this
      ensures tokens == old(tokens) - {token}
    {
      tokens := tokens - {token};
    }

    /** `download_file(token)` against the current table. */
    function Lookup(token: string, now: int, existing: set<string>): (r: Option<(string, string)>)
      reads this
      ensures r.Some? ==> token in tokens && tokens[token].filePath in existing
    {
      Serve(tokens, token, now, existing)
    }
  }

  /**
   * A token created at time `t` for an existing file is served at every
   * `now <= t + 86400` and refused from then on.
   */
  lemma ServedWithinLifetime(tokens: map<string, TokenEntry>, token: string, path: string, name: string,
                             ip: Option<string>, t: int, now: int, existing: set<string>)
    requires path in existing
    ensures var table := tokens[token := TokenEntry(path, name, ip, t + FileExpirationTime)];
      Serve(table, token, now, existing) == (if now <= t + 86400 then Some((path, name)) else None)
  {
  }

  /** Adding a token does not change what any other token serves. */
  lemma OtherTokensUnaffected(tokens: map<string, TokenEntry>, token: string, entry: TokenEntry,
                              other: string, now: int, existing: set<string>)
    requires other != token
    ensures Serve(tokens[token := entry], other, now, existing) == Serve(tokens, other, now, existing)
  {
  }

  /** Once popped, a token serves nothing. */
  lemma ExpiredTokenRefused(tokens: map<string, TokenEntry>, token: string, now: int, existing: set<string>)
    ensures Serve(tokens - {token}, token, now, existing) == None
  {
  }
}
