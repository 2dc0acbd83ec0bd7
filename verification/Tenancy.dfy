/** Tenant-id handling (utils/tenancy.py). `space` is Python's whitespace test, of which only the
    fact that it never holds of an allowed character is used. */
module Tenancy {
  import opened Strings

  const DEFAULT_TENANT := "default"
  const MAX_TENANT_ID_LENGTH := 64

  predicate Allowed(c: char) {
    'A' <= c <= 'Z' || 'a' <= c <= 'z' || '0' <= c <= '9' || c == '_' || c == '-'
  }

  predicate IsDash(c: char) {
    c == '-'
  }

  function Dashed(s: string): (r: string)
    ensures |r| == |s|
    ensures forall i :: 0 <= i < |s| ==> r[i] == if Allowed(s[i]) then s[i] else '-'
  {
    seq(|s|, i requires 0 <= i < |s| => if Allowed(s[i]) then s[i] else '-')
  }

  function SanitizeTenantId(space: char -> bool, tenantId: string): string {
    var stripped := Strip(if tenantId == [] then DEFAULT_TENANT else tenantId, space);
    if stripped == [] then DEFAULT_TENANT
    else
      var slug := Dashed(stripped);
      var cut := Strip(if |slug| > MAX_TENANT_ID_LENGTH then slug[..MAX_TENANT_ID_LENGTH] else slug, IsDash);
      if cut == [] then DEFAULT_TENANT else cut
  }

  /** A safe single path component. */
  predicate IsSlug(s: string) {
    && 1 <= |s| <= MAX_TENANT_ID_LENGTH
    && (forall i :: 0 <= i < |s| ==> Allowed(s[i]))
    && s[0] != '-' && s[|s| - 1] != '-'
  }

  lemma SanitizedIsSlug(space: char -> bool, tenantId: string)
    ensures IsSlug(SanitizeTenantId(space, tenantId))
  {
    var stripped := Strip(if tenantId == [] then DEFAULT_TENANT else tenantId, space);
    if stripped != [] {
      CutIsSlug(Dashed(stripped));
    }
    DefaultIsSlug();
  }

  lemma DefaultIsSlug()
    ensures IsSlug(DEFAULT_TENANT)
  {
    assert |DEFAULT_TENANT| == 7;
  }

  lemma AllAllowed(slug: string, short: string, cut: string)
    requires forall i :: 0 <= i < |slug| ==> Allowed(slug[i])
    requires short <= slug && forall c :: c in cut ==> c in short
    ensures forall i :: 0 <= i < |cut| ==> Allowed(cut[i])
  {
    forall i | 0 <= i < |cut|
      ensures Allowed(cut[i])
    {
      assert cut[i] in short;
      var j :| 0 <= j < |short| && short[j] == cut[i];
      assert slug[j] == short[j];
    }
  }

  lemma CutIsSlug(slug: string)
    requires forall i :: 0 <= i < |slug| ==> Allowed(slug[i])
    ensures var cut := Strip(if |slug| > MAX_TENANT_ID_LENGTH then slug[..MAX_TENANT_ID_LENGTH] else slug, IsDash);
      cut != [] ==> IsSlug(cut)
  {
    var short := if |slug| > MAX_TENANT_ID_LENGTH then slug[..MAX_TENANT_ID_LENGTH] else slug;
    assert short <= slug;
    StripKeeps(short, IsDash);
    AllAllowed(slug, short, Strip(short, IsDash));
  }

  /** The fixed points of sanitizing are exactly the slugs, so sanitizing twice changes nothing. */
  lemma FixedPointsAreSlugs(space: char -> bool, tenantId: string)
    requires forall c :: Allowed(c) ==> !space(c)
    ensures SanitizeTenantId(space, tenantId) == tenantId <==> IsSlug(tenantId)
    ensures SanitizeTenantId(space, SanitizeTenantId(space, tenantId)) == SanitizeTenantId(space, tenantId)
  {
    SanitizedIsSlug(space, tenantId);
    SlugUnchanged(space, SanitizeTenantId(space, tenantId));
    if IsSlug(tenantId) {
      SlugUnchanged(space, tenantId);
    }
  }

  lemma SlugUnchanged(space: char -> bool, s: string)
    requires (forall c :: Allowed(c) ==> !space(c)) && IsSlug(s)
    ensures SanitizeTenantId(space, s) == s
  {
    StripNothing(s, space);
    assert Dashed(s) == s;
    StripNothing(s, IsDash);
  }

  /** A sanitized tenant holds no key separator. */
  lemma SlugLacksColon(s: string)
    requires IsSlug(s)
    ensures Lacks(s, ':')
  {
  }

  // ----- what a tenant becomes

  /** Letters, digits, hyphen and underscore, by their ASCII codes. */
  predicate HandleChar(c: char) {
    var code := c as int;
    65 <= code <= 90 || 97 <= code <= 122 || 48 <= code <= 57 || code == 45 || code == 95
  }

  /** The first 64 characters of `text`, each one that is no handle character replaced by a hyphen. */
  ghost predicate IsHandle(text: string, handle: string) {
    && |handle| == (if |text| < 64 then |text| else 64)
    && forall i :: 0 <= i < |handle| ==> handle[i] == if HandleChar(text[i]) then text[i] else '-'
  }

  /** The cut handle of a text. */
  function Shortened(text: string): string {
    if |Dashed(text)| > MAX_TENANT_ID_LENGTH then Dashed(text)[..MAX_TENANT_ID_LENGTH] else Dashed(text)
  }

  lemma ShortenedIsHandle(text: string)
    ensures IsHandle(text, Shortened(text))
  {
  }

  lemma SanitizedUnfolds(space: char -> bool, tenantId: string, text: string)
    requires text == Strip(if tenantId == "" then "default" else tenantId, space)
    ensures var cut := Strip(Shortened(text), IsDash);
      SanitizeTenantId(space, tenantId) == if cut == "" then "default" else cut
  {
    if text == "" {
      assert Shortened("") == "";
    }
  }

  /** What a tenant becomes: the id, or "default" for none, without outer whitespace; cut and replaced; without outer
      hyphens; and "default" if nothing is left of it. */
  lemma SanitizedExactly(space: char -> bool, tenantId: string) returns (text: string, handle: string, cut: string)
    ensures IsTrimmed(if tenantId == "" then "default" else tenantId, space, text)
    ensures IsHandle(text, handle) && IsTrimmed(handle, IsDash, cut)
    ensures SanitizeTenantId(space, tenantId) == if cut == "" then "default" else cut
  {
    text := Strip(if tenantId == "" then "default" else tenantId, space);
    StripTrims(if tenantId == "" then "default" else tenantId, space);
    handle := Shortened(text);
    ShortenedIsHandle(text);
    cut := Strip(handle, IsDash);
    StripTrims(handle, IsDash);
    SanitizedUnfolds(space, tenantId, text);
  }
}
