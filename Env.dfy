/**
 * Where the API base URL comes from: the build-time variable, then the
 * window global, then the development default, then the stored override;
 * every configured value is cleaned of trailing slashes.
 */
module Env {
  import opened Wrappers
  import opened JsValues

  const DevDefaultUrl := "https://mp50271d8ae9b4bcffea.free.beeceptor.com"
  const StorageKey := "api_base_url"
  const MissingUrl := "API Base URL no configurada. Configura VITE_BASE_URL en las variables de entorno."

  /** Reading the stored override: the storage may be unavailable (the read
      throws), or hold the item or not. */
  datatype StorageRead = Unavailable | Item(value: Option<string>)

  /** The environment the resolution reads: `VITE_BASE_URL`, whether `window`
      exists and its `__API_BASE_URL__`, the `DEV` flag, and the storage. */
  datatype Sources = Sources(vite: JsValue, windowDefined: bool, global: JsValue, dev: bool, storage: StorageRead)

  /** `isNonEmptyString(v)`. */
  predicate IsNonEmptyString(v: JsValue) {
    v.JStr? && Trim(v.s) != ""
  }

  /** A non-empty string is a string with a character other than white space. */
  lemma IsNonEmptyStringIff(v: JsValue)
    ensures IsNonEmptyString(v) <==> v.JStr? && exists i :: 0 <= i < |v.s| && !IsWhitespace(v.s[i])
  {
    if v.JStr? {
      TrimEmptyIff(v.s);
    }
  }

  /** `sanitizeBaseUrl(url)`: the URL without its trailing run of slashes. */
  function SanitizeBaseUrl(url: string): (r: string)
    ensures |r| <= |url| && r == url[..|r|]
    ensures forall i :: |r| <= i < |url| ==> url[i] == '/'
    ensures r == [] || r[|r| - 1] != '/'
  {
    if url != [] && url[|url| - 1] == '/' then SanitizeBaseUrl(url[..|url| - 1]) else url
  }

  /** Cleaning twice is cleaning once, and a URL without a trailing slash is
      left as it is. */
  lemma SanitizeIdempotent(url: string)
    ensures SanitizeBaseUrl(SanitizeBaseUrl(url)) == SanitizeBaseUrl(url)
    ensures url == [] || url[|url| - 1] != '/' ==> SanitizeBaseUrl(url) == url
  {
  }

  /** The prefix and the removed run of slashes determine the result: any
      split of the URL into a part not ending in a slash and a run of slashes
      is the one `sanitizeBaseUrl` makes. */
  lemma {:induction false} SanitizeUnique(url: string, head: string, k: nat)
    requires url == head + seq(k, _ => '/') && (head == [] || head[|head| - 1] != '/')
    ensures SanitizeBaseUrl(url) == head
  {
    if k == 0 {
      assert url == head;
    } else {
      assert url[|url| - 1] == '/';
      assert url[..|url| - 1] == head + seq(k - 1, _ => '/');
      SanitizeUnique(url[..|url| - 1], head, k - 1);
    }
  }

  /** `resolveApiBaseUrl()`: `Err` is the thrown configuration error, which
      only happens outside development. A resolved URL never ends in a slash. */
  function ResolveApiBaseUrl(src: Sources): (r: Result<string, string>)
    ensures r.Ok? ==> r.value == [] || r.value[|r.value| - 1] != '/'
    ensures r.Err? ==> r.error == MissingUrl && !src.dev
  {
    var vite := if Truthy(src.vite) then src.vite else JStr("");
    if IsNonEmptyString(vite) then Ok(SanitizeBaseUrl(vite.s))
    else
      var global := if src.windowDefined then src.global else JBool(false);
      if IsNonEmptyString(global) then Ok(SanitizeBaseUrl(global.s))
      else if src.dev then Ok(DevDefaultUrl)
      else match src.storage
        case Item(Some(stored)) =>
          if IsNonEmptyString(JStr(stored)) then Ok(SanitizeBaseUrl(stored)) else Err(MissingUrl)
        case _ => Err(MissingUrl)
  }

  /** A non-blank build-time variable wins over everything else. */
  lemma ViteFirst(src: Sources)
    requires IsNonEmptyString(src.vite)
    ensures ResolveApiBaseUrl(src) == Ok(SanitizeBaseUrl(src.vite.s))
  {
  }

  /** Without it, a non-blank window global wins. */
  lemma GlobalSecond(src: Sources)
    requires !IsNonEmptyString(src.vite) && src.windowDefined && IsNonEmptyString(src.global)
    ensures ResolveApiBaseUrl(src) == Ok(SanitizeBaseUrl(src.global.s))
  {
  }

  /** Without either, development uses the default URL, whatever is stored. */
  lemma DevThird(src: Sources)
    requires !IsNonEmptyString(src.vite) && !(src.windowDefined && IsNonEmptyString(src.global)) && src.dev
    ensures ResolveApiBaseUrl(src) == Ok(DevDefaultUrl)
  {
  }

  /** Outside development, a non-blank stored override is used; without one
      (or without storage) resolution fails. */
  lemma StorageLast(src: Sources)
    requires !IsNonEmptyString(src.vite) && !(src.windowDefined && IsNonEmptyString(src.global)) && !src.dev
    ensures src.storage.Item? && src.storage.value.Some? && IsNonEmptyString(JStr(src.storage.value.value))
            ==> ResolveApiBaseUrl(src) == Ok(SanitizeBaseUrl(src.storage.value.value))
    ensures !(src.storage.Item? && src.storage.value.Some? && IsNonEmptyString(JStr(src.storage.value.value)))
            ==> ResolveApiBaseUrl(src) == Err(MissingUrl)
  {
  }

  /** The build-time variable "https://api.ejemplo.com///" resolves to
      "https://api.ejemplo.com". */
  lemma ViteExample(src: Sources)
    requires src.vite == JStr("https://api.ejemplo.com///")
    ensures ResolveApiBaseUrl(src) == Ok("https://api.ejemplo.com")
  {
    var head := "https://api.ejemplo.com";
    assert "https://api.ejemplo.com///" == head + seq(3, _ => '/');
    SanitizeUnique("https://api.ejemplo.com///", head, 3);
    assert Trim("https://api.ejemplo.com///") != "" by {
      assert !IsWhitespace("https://api.ejemplo.com///"[0]);
      TrimEmptyIff("https://api.ejemplo.com///");
    }
  }
}
