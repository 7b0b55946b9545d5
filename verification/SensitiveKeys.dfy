/** Which dictionary keys hold secrets (app/core/sensitive_keys.py). */
module SensitiveKeys {
  import opened Text

  const EXACT: set<string> := {
    "access_token", "refresh_token", "id_token", "api_key", "api_token", "authorization", "password", "secret",
    "client_secret", "private_key", "bot_token", "cookie", "set_cookie", "webhook_verify_token", "pc_session", "pc_csrf"
  }

  const MARKERS: seq<string> := ["password", "secret", "token", "api_key", "authorization", "cookie", "private_key"]

  /** `part in s` */
  predicate Has(s: string, part: string) {
    exists i :: 0 <= i <= |s| && part <= s[i..]
  }

  predicate IsSensitive(key: string) {
    var k := Lower(Strip(key));
    && k != "" && k != "token_type"
    && (k in EXACT || exists m :: m in MARKERS && Has(k, m))
  }

  lemma MarkersOfTokens(k: string)
    requires k in {"access_token", "refresh_token", "id_token", "api_token", "bot_token", "webhook_verify_token"}
    ensures Has(k, "token")
  {
    assert k[|k| - 5..] == "token";
  }

  lemma MarkersOfOthers(k: string)
    requires k in {"api_key", "authorization", "password", "secret", "client_secret", "private_key", "cookie", "set_cookie"}
    ensures exists m :: m in MARKERS && Has(k, m)
  {
    var m := if k == "client_secret" then "secret" else if k == "set_cookie" then "cookie" else k;
    assert k[|k| - |m|..] == m;
    assert MARKERS[0] == "password" && MARKERS[1] == "secret" && MARKERS[3] == "api_key";
    assert MARKERS[4] == "authorization" && MARKERS[5] == "cookie" && MARKERS[6] == "private_key";
    assert m in MARKERS;
  }

  lemma ExactHasMarker(k: string)
    requires k in EXACT && k != "pc_session" && k != "pc_csrf"
    ensures exists m :: m in MARKERS && Has(k, m)
  {
    if k in {"access_token", "refresh_token", "id_token", "api_token", "bot_token", "webhook_verify_token"} {
      MarkersOfTokens(k);
      assert MARKERS[2] == "token";
    } else {
      MarkersOfOthers(k);
    }
  }

  /** Whatever its case and the white space around it, a key is sensitive exactly if
      a marker occurs in it, or it is one of two session cookies; only `token_type` is
      excepted. */
  lemma SensitiveExactly(w: string, s: string, v: string, k: string)
    requires Blank(w) && Blank(v) && IsCaseOf(s, k) && Solid(k)
    ensures IsSensitive(w + (s + v)) <==>
              k != "token_type" && (k == "pc_session" || k == "pc_csrf" || exists m :: m in MARKERS && Has(k, m))
  {
    LowerStripped(w, s, v, k);
    if k in EXACT && k != "pc_session" && k != "pc_csrf" {
      ExactHasMarker(k);
    }
  }

  /** A blank key is not. */
  lemma BlankIsPlain(w: string)
    requires Blank(w)
    ensures !IsSensitive(w)
  {
    StripFront(w, "");
    assert w + "" == w;
  }
}
