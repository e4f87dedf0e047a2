/**
 Resolution of a raw image link into the ordered chain of candidate URLs tried
 for it (`extractDriveId` and `driveVariantsFromUrl` in app.js).

 The three regular expressions of the source are modelled as scanners over the
 trimmed link, with the matching rules of a non-global `String.prototype.match`:
 the leftmost start position at which the whole pattern matches wins, and the
 capture `([a-zA-Z0-9_-]+)` is greedy. A start position whose prefix is not
 followed by an identifier character is skipped, and the scan moves on.
 */
module Drive {
  import opened Text
  import opened Search

  /** The identifier alphabet `[a-zA-Z0-9_-]`. */
  predicate IsIdChar(c: char) {
    ('a' <= c <= 'z') || ('A' <= c <= 'Z') || ('0' <= c <= '9') || c == '_' || c == '-'
  }

  /** What `[a-zA-Z0-9_-]+` can match. */
  predicate IsDriveId(s: string) {
    |s| > 0 && forall i :: 0 <= i < |s| ==> IsIdChar(s[i])
  }

  /** `id` is the greedy `[a-zA-Z0-9_-]+` capture that starts at index `i` of `t`. */
  predicate CapturedAt(t: string, i: int, id: string) {
    && 0 <= i && i + |id| <= |t| && t[i..i + |id|] == id && IsDriveId(id)
    && (i + |id| == |t| || !IsIdChar(t[i + |id|]))
  }

  lemma CaptureIsUnique(t: string, i: int, a: string, b: string)
    requires CapturedAt(t, i, a) && CapturedAt(t, i, b)
    ensures a == b
  {
    forall k | i <= k < i + |a| ensures IsIdChar(t[k]) {
      assert t[k] == a[k - i];
    }
    forall k | i <= k < i + |b| ensures IsIdChar(t[k]) {
      assert t[k] == b[k - i];
    }
  }

  /** One past the longest run of identifier characters that starts at `i`. */
  function RunEnd(t: string, i: nat): (j: nat)
    requires i <= |t|
    ensures i <= j <= |t|
    ensures forall k :: i <= k < j ==> IsIdChar(t[k])
    ensures j == |t| || !IsIdChar(t[j])
    decreases |t| - i
  {
    if i < |t| && IsIdChar(t[i]) then RunEnd(t, i + 1) else i
  }

  function CaptureFrom(t: string, i: nat): (id: string)
    requires i < |t| && IsIdChar(t[i])
    ensures CapturedAt(t, i, id)
  {
    t[i..RunEnd(t, i)]
  }

  /** `/\/d\/([a-zA-Z0-9_-]+)/` can match starting at `p`. */
  predicate PathAt(t: string, p: int) {
    0 <= p && p + 4 <= |t| && t[p] == '/' && t[p + 1] == 'd' && t[p + 2] == '/' && IsIdChar(t[p + 3])
  }

  /** `/[?&]id=([a-zA-Z0-9_-]+)/` can match starting at `p`. */
  predicate QueryAt(t: string, p: int) {
    && 0 <= p && p + 5 <= |t| && (t[p] == '?' || t[p] == '&')
    && t[p + 1] == 'i' && t[p + 2] == 'd' && t[p + 3] == '=' && IsIdChar(t[p + 4])
  }

  /** `id=` followed by an identifier character, at `k`. */
  predicate IdParamAt(t: string, k: int) {
    0 <= k && k + 4 <= |t| && t[k] == 'i' && t[k + 1] == 'd' && t[k + 2] == '=' && IsIdChar(t[k + 3])
  }

  /** `/uc\?[^#]*id=([a-zA-Z0-9_-]+)/` can match starting at `p` with its `id=` at `k`. */
  predicate UcAt(t: string, p: int, k: int) {
    && 0 <= p && p + 3 <= k && IdParamAt(t, k)
    && t[p] == 'u' && t[p + 1] == 'c' && t[p + 2] == '?'
    && forall j :: p + 3 <= j < k ==> t[j] != '#'
  }

  ghost predicate HasPath(t: string) { exists p :: PathAt(t, p) }
  ghost predicate HasQuery(t: string) { exists p :: QueryAt(t, p) }
  ghost predicate HasUc(t: string) { exists p, k :: UcAt(t, p, k) }

  /** The match a regular-expression engine reports: the leftmost start. */
  ghost predicate FirstPathAt(t: string, p: int) {
    PathAt(t, p) && forall q :: 0 <= q < p ==> !PathAt(t, q)
  }

  ghost predicate FirstQueryAt(t: string, p: int) {
    QueryAt(t, p) && forall q :: 0 <= q < p ==> !QueryAt(t, q)
  }

  /** Leftmost start; at that start the greedy `[^#]*` gives back as little as it can, so the last `id=` is used. */
  ghost predicate FirstUcAt(t: string, p: int, k: int) {
    && UcAt(t, p, k)
    && (forall q, j :: 0 <= q < p ==> !UcAt(t, q, j))
    && (forall j :: k < j ==> !UcAt(t, p, j))
  }

  /** Where the `id=` of a `uc?` match starting at `p` lies, if any. */
  function UcTarget(t: string, p: nat): (r: Option<nat>)
    ensures r.Some? ==> UcAt(t, p, r.value) && forall j :: r.value < j ==> !UcAt(t, p, j)
    ensures r.None? ==> forall j :: !UcAt(t, p, j)
  {
    if p + 3 > |t| || t[p] != 'u' || t[p + 1] != 'c' || t[p + 2] != '?' then None
    else
      var isHash := (j: nat) => j < |t| && t[j] == '#';
      var hash := FindFirst(isHash, p + 3, |t|);
      var e := if hash.Some? then hash.value else |t|;
      assert forall j: nat :: p + 3 <= j < e ==> !isHash(j);
      forall j | p + 3 <= j < e ensures t[j] != '#' {
        assert !isHash(j);
      }
      assert forall j :: UcAt(t, p, j) ==> j <= e;
      var isParam := (k: nat) => IdParamAt(t, k);
      var r := FindLast(isParam, p + 3, e + 1);
      assert r.Some? ==> isParam(r.value);
      assert forall j: nat :: UcAt(t, p, j) ==> isParam(j);
      r
  }

  /** `u.match(/\/d\/([a-zA-Z0-9_-]+)/)`, reduced to its capture. */
  function MatchPath(t: string): (r: Option<string>)
    ensures r.Some? <==> HasPath(t)
    ensures r.Some? ==> exists p :: FirstPathAt(t, p) && CapturedAt(t, p + 3, r.value)
  {
    var isPath := (p: nat) => PathAt(t, p);
    match FindFirst(isPath, 0, |t|)
    case Some(p) =>
      forall q | 0 <= q < p ensures !PathAt(t, q) {
        assert !isPath(q);
      }
      assert FirstPathAt(t, p);
      Some(CaptureFrom(t, p + 3))
    case None =>
      forall q | 0 <= q < |t| ensures !PathAt(t, q) {
        assert !isPath(q);
      }
      None
  }

  /** `u.match(/[?&]id=([a-zA-Z0-9_-]+)/)`, reduced to its capture. */
  function MatchQuery(t: string): (r: Option<string>)
    ensures r.Some? <==> HasQuery(t)
    ensures r.Some? ==> exists p :: FirstQueryAt(t, p) && CapturedAt(t, p + 4, r.value)
  {
    var isQuery := (p: nat) => QueryAt(t, p);
    match FindFirst(isQuery, 0, |t|)
    case Some(p) =>
      forall q | 0 <= q < p ensures !QueryAt(t, q) {
        assert !isQuery(q);
      }
      assert FirstQueryAt(t, p);
      Some(CaptureFrom(t, p + 4))
    case None =>
      forall q | 0 <= q < |t| ensures !QueryAt(t, q) {
        assert !isQuery(q);
      }
      None
  }

  /** `u.match(/uc\?[^#]*id=([a-zA-Z0-9_-]+)/)`, reduced to its capture. */
  function MatchUc(t: string): (r: Option<string>)
    ensures r.Some? <==> HasUc(t)
    ensures r.Some? ==> exists p, k :: FirstUcAt(t, p, k) && CapturedAt(t, k + 3, r.value)
  {
    var isUc := (p: nat) => UcTarget(t, p).Some?;
    match FindFirst(isUc, 0, |t|)
    case Some(p) =>
      var k := UcTarget(t, p).value;
      forall q, j | 0 <= q < p ensures !UcAt(t, q, j) {
        assert !isUc(q);
      }
      assert FirstUcAt(t, p, k);
      Some(CaptureFrom(t, k + 3))
    case None =>
      forall q, j | 0 <= q < |t| ensures !UcAt(t, q, j) {
        assert !isUc(q);
      }
      None
  }

  /** `extractDriveId`: the file identifier of a link, or "" when there is none. */
  function ExtractDriveId(u: string): (id: string)
    ensures u == "" ==> id == ""
    ensures id == "" || IsDriveId(id)
  {
    if u == "" then ""
    else
      var t := Trim(u);
      match MatchPath(t)
      case Some(id) => id
      case None =>
        match MatchQuery(t)
        case Some(id) => id
        case None =>
          match MatchUc(t)
          case Some(id) => id
          case None => ""
  }

  /**
   Which pattern decides: on the trimmed link, `/d/` wins over `[?&]id=`, which
   wins over `uc?…id=`; each reports the capture of its leftmost match; and the
   identifier is empty exactly when none of the three matches.
   */
  lemma ExtractDriveIdPrecedence(u: string)
    requires u != ""
    ensures var t, id := Trim(u), ExtractDriveId(u);
            && (HasPath(t) ==> exists p :: FirstPathAt(t, p) && CapturedAt(t, p + 3, id))
            && (!HasPath(t) && HasQuery(t) ==> exists p :: FirstQueryAt(t, p) && CapturedAt(t, p + 4, id))
            && (!HasPath(t) && !HasQuery(t) && HasUc(t) ==> exists p, k :: FirstUcAt(t, p, k) && CapturedAt(t, k + 3, id))
            && (id == "" <==> !HasPath(t) && !HasQuery(t) && !HasUc(t))
  {
    var t := Trim(u);
    match MatchPath(t)
    case Some(id) =>
      assert ExtractDriveId(u) == id;
    case None =>
      match MatchQuery(t)
      case Some(id) =>
        assert ExtractDriveId(u) == id;
      case None =>
        assert ExtractDriveId(u) == if MatchUc(t).Some? then MatchUc(t).value else "";
  }

  const DriveHost := "https://drive.google.com/"
  const ViewPrefix := DriveHost + "uc?export=view&id="
  const DownloadPrefix := DriveHost + "uc?export=download&id="
  const CdnPrefix := "https://lh3.googleusercontent.com/d/"
  const CdnSuffix := "=w1600"
  const ThumbnailPrefix := DriveHost + "thumbnail?id="
  const ThumbnailSuffix := "&sz=w1600"

  /** `/^https?:\/\//i`: the link already is an absolute web address. */
  predicate IsHttpUrl(u: string): (b: bool)
    ensures b ==> |u| >= |"http://"|
  {
    StartsWithIgnoringCase(u, "http://") || StartsWithIgnoringCase(u, "https://")
  }

  /**
   The candidate URLs for a file identifier, in the order they are tried: the
   direct view, the download redirect, the CDN copy at width 1600 and the
   thumbnail endpoint (which may crop, hence last).
   */
  function Candidates(id: string): (vs: seq<string>)
    ensures |vs| == 4
  {
    [ViewPrefix + id, DownloadPrefix + id, CdnPrefix + id + CdnSuffix, ThumbnailPrefix + id + ThumbnailSuffix]
  }

  /** The four candidates are four different URLs, so the fallback never tries one address twice. */
  lemma CandidatesDistinct(id: string)
    ensures forall i, j :: 0 <= i < j < |Candidates(id)| ==> Candidates(id)[i] != Candidates(id)[j]
  {
    var vs := Candidates(id);
    var k := |DriveHost|;
    assert vs[0][k + 10] == 'v' && vs[1][k + 10] == 'd';
    assert vs[0][k] == 'u' && vs[1][k] == 'u' && vs[3][k] == 't';
    assert vs[2][8] == 'l' && vs[0][8] == 'd' && vs[1][8] == 'd' && vs[3][8] == 'd';
  }

  /** `driveVariantsFromUrl`: the candidate URLs for one raw image link, best first. */
  function DriveVariants(u: string): (vs: seq<string>)
    ensures ExtractDriveId(u) != "" ==> vs == Candidates(ExtractDriveId(u))
    ensures ExtractDriveId(u) == "" && IsHttpUrl(u) ==> vs == [u]
    ensures vs == [] <==> ExtractDriveId(u) == "" && !IsHttpUrl(u)
  {
    var id := ExtractDriveId(u);
    if id == "" then
      if u != "" && IsHttpUrl(u) then [u] else []
    else Candidates(id)
  }
}

module DriveRoundTrip {
  import opened Text
  import opened Search
  import opened Drive

  /** On a link `trim` leaves alone, the identifier is the first of the three matches to succeed. */
  lemma ExtractsFirstMatch(t: string)
    requires t != "" && Trim(t) == t
    ensures MatchPath(t).Some? ==> ExtractDriveId(t) == MatchPath(t).value
    ensures MatchPath(t).None? && MatchQuery(t).Some? ==> ExtractDriveId(t) == MatchQuery(t).value
  {
  }

  lemma FirstPathUnique(t: string, p: int, at: int)
    requires FirstPathAt(t, p)
    requires PathAt(t, at) && forall q :: 0 <= q < at ==> !PathAt(t, q)
    ensures p == at
  {
  }

  lemma FirstQueryUnique(t: string, p: int, at: int)
    requires FirstQueryAt(t, p)
    requires QueryAt(t, at) && forall q :: 0 <= q < at ==> !QueryAt(t, q)
    ensures p == at
  {
  }

  lemma MatchPathIs(t: string, at: int, id: string)
    requires PathAt(t, at) && forall q :: 0 <= q < at ==> !PathAt(t, q)
    requires CapturedAt(t, at + 3, id)
    ensures MatchPath(t) == Some(id)
  {
    assert HasPath(t);
    var m := MatchPath(t);
    var p :| FirstPathAt(t, p) && CapturedAt(t, p + 3, m.value);
    FirstPathUnique(t, p, at);
    CaptureIsUnique(t, at + 3, m.value, id);
  }

  lemma MatchQueryIs(t: string, at: int, id: string)
    requires QueryAt(t, at) && forall q :: 0 <= q < at ==> !QueryAt(t, q)
    requires CapturedAt(t, at + 4, id)
    ensures MatchQuery(t) == Some(id)
  {
    assert HasQuery(t);
    var m := MatchQuery(t);
    var p :| FirstQueryAt(t, p) && CapturedAt(t, p + 4, m.value);
    FirstQueryUnique(t, p, at);
    CaptureIsUnique(t, at + 4, m.value, id);
  }

  lemma NoPathMatch(t: string)
    requires forall p :: 0 <= p < |t| ==> !PathAt(t, p)
    ensures MatchPath(t) == None
  {
  }

  /** A trimmed link whose leftmost `/d/` match captures `id` resolves to `id`. */
  lemma ResolvesByPath(t: string, at: int, id: string)
    requires Trim(t) == t
    requires PathAt(t, at) && forall q :: 0 <= q < at ==> !PathAt(t, q)
    requires CapturedAt(t, at + 3, id)
    ensures ExtractDriveId(t) == id
  {
    MatchPathIs(t, at, id);
    ExtractsFirstMatch(t);
  }

  /** A trimmed link with no `/d/` match whose leftmost `[?&]id=` match captures `id` resolves to `id`. */
  lemma ResolvesByQuery(t: string, at: int, id: string)
    requires Trim(t) == t
    requires forall p :: 0 <= p < |t| ==> !PathAt(t, p)
    requires QueryAt(t, at) && forall q :: 0 <= q < at ==> !QueryAt(t, q)
    requires CapturedAt(t, at + 4, id)
    ensures ExtractDriveId(t) == id
  {
    NoPathMatch(t);
    MatchQueryIs(t, at, id);
    ExtractsFirstMatch(t);
  }

  /** A candidate URL has no surrounding spaces, so `trim` leaves it alone. */
  lemma CandidateIsTrimmed(pre: string, id: string, suf: string)
    requires |pre| > 0 && !IsJsSpace(pre[0]) && IsDriveId(id)
    requires suf == [] || !IsJsSpace(suf[|suf| - 1])
    ensures Trim(pre + id + suf) == pre + id + suf
  {
    var t := pre + id + suf;
    assert t[0] == pre[0];
    if suf == [] {
      assert t[|t| - 1] == id[|id| - 1];
    } else {
      assert t[|t| - 1] == suf[|suf| - 1];
    }
  }

  lemma ViewUrlNoPath(id: string)
    requires IsDriveId(id)
    ensures forall p :: 0 <= p < |ViewPrefix + id| ==> !PathAt(ViewPrefix + id, p)
  {
    var t := ViewPrefix + id;
    forall p | 0 <= p < |t| ensures !PathAt(t, p) {
    }
  }

  lemma ViewUrlFirstQuery(id: string)
    requires IsDriveId(id)
    ensures QueryAt(ViewPrefix + id, |ViewPrefix| - 4)
    ensures forall q :: 0 <= q < |ViewPrefix| - 4 ==> !QueryAt(ViewPrefix + id, q)
    ensures CapturedAt(ViewPrefix + id, |ViewPrefix|, id)
  {
    var t := ViewPrefix + id;
    forall q | 0 <= q < |ViewPrefix| - 4 ensures !QueryAt(t, q) {
    }
    assert t[|ViewPrefix|..|ViewPrefix| + |id|] == id;
  }

  lemma ViewUrlResolves(id: string)
    requires IsDriveId(id)
    ensures ExtractDriveId(ViewPrefix + id) == id
  {
    CandidateIsTrimmed(ViewPrefix, id, "");
    assert ViewPrefix + id == ViewPrefix + id + "";
    ViewUrlNoPath(id);
    ViewUrlFirstQuery(id);
    ResolvesByQuery(ViewPrefix + id, |ViewPrefix| - 4, id);
  }

  lemma DownloadUrlNoPath(id: string)
    requires IsDriveId(id)
    ensures forall p :: 0 <= p < |DownloadPrefix + id| ==> !PathAt(DownloadPrefix + id, p)
  {
    var t := DownloadPrefix + id;
    forall p | 0 <= p < |t| ensures !PathAt(t, p) {
      if p < |DownloadPrefix| {
        assert t[p] == DownloadPrefix[p];
      } else {
        assert t[p] == id[p - |DownloadPrefix|];
      }
    }
  }

  lemma DownloadUrlFirstQuery(id: string)
    requires IsDriveId(id)
    ensures QueryAt(DownloadPrefix + id, |DownloadPrefix| - 4)
    ensures forall q :: 0 <= q < |DownloadPrefix| - 4 ==> !QueryAt(DownloadPrefix + id, q)
    ensures CapturedAt(DownloadPrefix + id, |DownloadPrefix|, id)
  {
    var t := DownloadPrefix + id;
    forall q | 0 <= q < |DownloadPrefix| - 4 ensures !QueryAt(t, q) {
      assert t[q] == DownloadPrefix[q];
    }
    assert t[|DownloadPrefix|..|DownloadPrefix| + |id|] == id;
  }

  lemma DownloadUrlResolves(id: string)
    requires IsDriveId(id)
    ensures ExtractDriveId(DownloadPrefix + id) == id
  {
    assert DownloadPrefix[0] == 'h';
    CandidateIsTrimmed(DownloadPrefix, id, "");
    assert DownloadPrefix + id == DownloadPrefix + id + "";
    DownloadUrlNoPath(id);
    DownloadUrlFirstQuery(id);
    ResolvesByQuery(DownloadPrefix + id, |DownloadPrefix| - 4, id);
  }

  lemma CdnUrlFirstPath(id: string)
    requires IsDriveId(id)
    ensures PathAt(CdnPrefix + id + CdnSuffix, |CdnPrefix| - 3)
    ensures forall q :: 0 <= q < |CdnPrefix| - 3 ==> !PathAt(CdnPrefix + id + CdnSuffix, q)
    ensures CapturedAt(CdnPrefix + id + CdnSuffix, |CdnPrefix|, id)
  {
    var t := CdnPrefix + id + CdnSuffix;
    forall q | 0 <= q < |CdnPrefix| - 3 ensures !PathAt(t, q) {
    }
    assert t[|CdnPrefix|..|CdnPrefix| + |id|] == id;
    assert t[|CdnPrefix| + |id|] == '=';
  }

  lemma CdnUrlResolves(id: string)
    requires IsDriveId(id)
    ensures ExtractDriveId(CdnPrefix + id + CdnSuffix) == id
  {
    CandidateIsTrimmed(CdnPrefix, id, CdnSuffix);
    CdnUrlFirstPath(id);
    ResolvesByPath(CdnPrefix + id + CdnSuffix, |CdnPrefix| - 3, id);
  }

  lemma ThumbnailUrlNoPath(id: string)
    requires IsDriveId(id)
    ensures forall p :: 0 <= p < |ThumbnailPrefix + id + ThumbnailSuffix| ==> !PathAt(ThumbnailPrefix + id + ThumbnailSuffix, p)
  {
    var t := ThumbnailPrefix + id + ThumbnailSuffix;
    forall p | 0 <= p < |t| ensures !PathAt(t, p) {
    }
  }

  lemma ThumbnailUrlFirstQuery(id: string)
    requires IsDriveId(id)
    ensures QueryAt(ThumbnailPrefix + id + ThumbnailSuffix, |ThumbnailPrefix| - 4)
    ensures forall q :: 0 <= q < |ThumbnailPrefix| - 4 ==> !QueryAt(ThumbnailPrefix + id + ThumbnailSuffix, q)
    ensures CapturedAt(ThumbnailPrefix + id + ThumbnailSuffix, |ThumbnailPrefix|, id)
  {
    var t := ThumbnailPrefix + id + ThumbnailSuffix;
    forall q | 0 <= q < |ThumbnailPrefix| - 4 ensures !QueryAt(t, q) {
    }
    assert t[|ThumbnailPrefix|..|ThumbnailPrefix| + |id|] == id;
    assert t[|ThumbnailPrefix| + |id|] == '&';
  }

  lemma ThumbnailUrlResolves(id: string)
    requires IsDriveId(id)
    ensures ExtractDriveId(ThumbnailPrefix + id + ThumbnailSuffix) == id
  {
    CandidateIsTrimmed(ThumbnailPrefix, id, ThumbnailSuffix);
    ThumbnailUrlNoPath(id);
    ThumbnailUrlFirstQuery(id);
    ResolvesByQuery(ThumbnailPrefix + id + ThumbnailSuffix, |ThumbnailPrefix| - 4, id);
  }

  lemma CandidatesResolve(id: string)
    requires IsDriveId(id)
    ensures forall i :: 0 <= i < 4 ==> ExtractDriveId(Candidates(id)[i]) == id
  {
    var vs := Candidates(id);
    forall i | 0 <= i < 4 ensures ExtractDriveId(vs[i]) == id {
      if i == 0 {
        ViewUrlResolves(id);
      } else if i == 1 {
        DownloadUrlResolves(id);
      } else if i == 2 {
        CdnUrlResolves(id);
      } else {
        ThumbnailUrlResolves(id);
      }
    }
  }

  /**
   Every candidate built for a link that carries an identifier embeds exactly
   that identifier: resolving the candidate again recovers it.
   */
  lemma VariantsRoundTrip(u: string)
    ensures ExtractDriveId(u) != "" ==> |DriveVariants(u)| == 4
    ensures ExtractDriveId(u) != "" ==>
              forall i :: 0 <= i < |DriveVariants(u)| ==> ExtractDriveId(DriveVariants(u)[i]) == ExtractDriveId(u)
  {
    if ExtractDriveId(u) != "" {
      CandidatesResolve(ExtractDriveId(u));
    }
  }

  /** In the sharing link the first `/d/` is the one closing `file/d/`, and the identifier follows it. */
  lemma ShareLinkFirstPath(id: string)
    requires IsDriveId(id)
    ensures var t := DriveHost + "file/d/" + id + "/view";
            var at := |DriveHost| + |"file"|;
            && PathAt(t, at) && (forall q :: 0 <= q < at ==> !PathAt(t, q))
            && CapturedAt(t, at + 3, id)
  {
    var pre := DriveHost + "file/d/";
    var t := pre + id + "/view";
    var at := |DriveHost| + |"file"|;
    forall q | 0 <= q < at ensures !PathAt(t, q) {
      assert t[q] == pre[q];
    }
    assert t[at] == '/' && t[at + 1] == 'd' && t[at + 2] == '/';
    assert t[|pre|..|pre| + |id|] == id;
    assert t[|pre| + |id|] == '/';
  }

  /** The usual sharing link `https://drive.google.com/file/d/<id>/view` resolves to `<id>`. */
  lemma ShareLinkResolves(id: string)
    requires IsDriveId(id)
    ensures ExtractDriveId(DriveHost + "file/d/" + id + "/view") == id
    ensures DriveVariants(DriveHost + "file/d/" + id + "/view") == Candidates(id)
  {
    var t := DriveHost + "file/d/" + id + "/view";
    CandidateIsTrimmed(DriveHost + "file/d/", id, "/view");
    ShareLinkFirstPath(id);
    ResolvesByPath(t, |DriveHost| + |"file"|, id);
  }
}
