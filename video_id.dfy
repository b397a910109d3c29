/**
 * The video-identifier extractor of App.py (`extract_video_id`).
 *
 * Two anchored URL shapes are tried in order and the last capture group of the
 * first one that matches is returned:
 *
 *   long  form:  (https?://)? (www.youtube.com | youtu.?be) / .+ v= ID .* $
 *   short form:  (https?://)? (www.youtube.com | youtu.?be) / ID .* $
 *
 * where ID is exactly eleven characters of [a-zA-Z0-9_-]. The patterns are
 * modelled by hand: a specification predicate per shape that says how the
 * subject string splits, and an executable recogniser proved to agree with it.
 * As in Python's `re`, `.` matches any character but a newline and `$` matches
 * at the end of the string or just before a newline that ends it.
 */
module VideoId {
  import opened Wrappers

  // ---------------------------------------------------------------------------
  // Building blocks of the two patterns
  // ---------------------------------------------------------------------------

  const IdLength: nat := 11

  /** The character class [a-zA-Z0-9_-]. */
  predicate IsIdChar(c: char) {
    ('a' <= c <= 'z') || ('A' <= c <= 'Z') || ('0' <= c <= '9') || c == '_' || c == '-'
  }

  /** A video identifier: exactly eleven characters of the class. */
  predicate IsId(x: string) {
    |x| == IdLength && forall i | 0 <= i < |x| :: IsIdChar(x[i])
  }

  /** What a run of `.` can consume: anything without a newline. */
  predicate NoNewline(x: string) {
    '\n' !in x
  }

  /** The alternatives of `(https?\:\/\/)?`, in the order the regex tries them. */
  const Schemes: seq<string> := ["https://", "http://", ""]

  /** The alternatives of `(www\.youtube\.com|youtu\.?be)`, in the order the regex tries them. */
  const Hosts: seq<string> := ["www.youtube.com", "youtu.be", "youtube"]

  /** The common start of both patterns: optional scheme, host, then a slash. */
  ghost predicate IsLead(x: string) {
    exists a, b | 0 <= a < |Schemes| && 0 <= b < |Hosts| :: x == Schemes[a] + Hosts[b] + "/"
  }

  /**
   * The text a pattern ending in `.*$` has to consume: `$` also matches just
   * before a newline that ends the string, and nothing in either pattern can
   * consume a newline.
   */
  function Subject(s: string): (t: string)
    ensures t <= s
    ensures |s| == 0 || s[|s| - 1] != '\n' ==> t == s
    ensures |s| > 0 && s[|s| - 1] == '\n' ==> |t| == |s| - 1
  {
    if |s| > 0 && s[|s| - 1] == '\n' then s[..|s| - 1] else s
  }

  // ---------------------------------------------------------------------------
  // Specification: how a matching subject splits
  // ---------------------------------------------------------------------------

  /** The long pattern matches `t` as lead + gap + "v=" + id + rest, `.+` taking the gap. */
  ghost predicate LongForm(t: string, lead: string, gap: string, id: string, rest: string) {
    t == lead + gap + "v=" + id + rest && IsLead(lead) &&
    |gap| >= 1 && NoNewline(gap) && IsId(id) && NoNewline(rest)
  }

  /** The short pattern matches `t` as lead + id + rest. */
  ghost predicate ShortForm(t: string, lead: string, id: string, rest: string) {
    t == lead + id + rest && IsLead(lead) && IsId(id) && NoNewline(rest)
  }

  /** No way of matching the long pattern against `t` gives `.+` more than `n` characters. */
  ghost predicate GapAtMost(t: string, n: nat) {
    forall lead, gap, id, rest :: LongForm(t, lead, gap, id, rest) ==> |gap| <= n
  }

  /**
   * `id` is the group the long pattern captures on `t`: greedy `.+` backtracks
   * from the longest gap, so the capture is the one of the match with the
   * longest gap, that is, after the last suitable "v=".
   */
  ghost predicate LongCapture(t: string, id: string) {
    exists lead, gap, rest :: LongForm(t, lead, gap, id, rest) && GapAtMost(t, |gap|)
  }

  // ---------------------------------------------------------------------------
  // Recognisers
  // ---------------------------------------------------------------------------

  /**
   * The length of the lead at the start of `t`, if there is one. The nine leads
   * are mutually prefix-free, so at most one length fits: the backtracking over
   * the scheme and host alternatives cannot change what is matched.
   */
  function LeadLength(t: string): (k: Option<nat>)
    ensures k.Some? ==> k.value <= |t| && IsLead(t[..k.value])
    ensures forall n | 0 <= n <= |t| && IsLead(t[..n]) :: k == Some(n)
  {
    var a := SchemeIndex(t);
    var sa := |Schemes[a]|;
    var r := match HostIndex(t[sa..])
      case None => None
      case Some(b) => Some(sa + |Hosts[b]| + 1);
    LeadFound(t, a, HostIndex(t[sa..]));
    forall n | 0 <= n <= |t| && IsLead(t[..n])
      ensures r == Some(n)
    {
      LeadOnly(t, n);
    }
    r
  }

  lemma LeadFound(t: string, a: nat, b: Option<nat>)
    requires a < |Schemes| && Schemes[a] <= t
    requires b.Some? ==> b.value < |Hosts| && Hosts[b.value] + "/" <= t[|Schemes[a]|..]
    ensures b.Some? ==> IsLead(t[..|Schemes[a]| + |Hosts[b.value]| + 1])
  {
    if b.Some? {
      var sa := |Schemes[a]|;
      var h := Hosts[b.value] + "/";
      assert t[..sa] == Schemes[a];
      assert t[sa..][..|h|] == h;
      assert t[sa..sa + |h|] == h;
      assert t[..sa + |h|] == Schemes[a] + h;
    }
  }

  lemma LeadOnly(t: string, n: nat)
    requires n <= |t| && IsLead(t[..n])
    ensures var a := SchemeIndex(t);
            HostIndex(t[|Schemes[a]|..]).Some? &&
            n == |Schemes[a]| + |Hosts[HostIndex(t[|Schemes[a]|..]).value]| + 1
  {
    var a, b :| 0 <= a < |Schemes| && 0 <= b < |Hosts| && t[..n] == Schemes[a] + Hosts[b] + "/";
    var h := Hosts[b] + "/";
    var sa := |Schemes[a]|;
    assert Schemes[a] + h == t[..n];
    assert Schemes[a] + Hosts[b] + "/" <= t;
    SchemeUnique(t, a, b);
    assert n == sa + |h|;
    assert t[sa..n] == h;
    assert h <= t[sa..];
    HostUnique(t[sa..], b);
  }

  /** The alternative (an index into Schemes) the scheme group takes on `t`. */
  function SchemeIndex(t: string): (a: nat)
    ensures a < |Schemes| && Schemes[a] <= t
  {
    if Schemes[0] <= t then 0 else if Schemes[1] <= t then 1 else 2
  }

  /** The host alternative (an index into Hosts) followed by a slash at the start of `u`. */
  function HostIndex(u: string): (b: Option<nat>)
    ensures b.Some? ==> b.value < |Hosts| && Hosts[b.value] + "/" <= u
  {
    if Hosts[0] + "/" <= u then Some(0)
    else if Hosts[1] + "/" <= u then Some(1)
    else if Hosts[2] + "/" <= u then Some(2)
    else None
  }

  /** A lead fixes the scheme alternative: hosts start with 'w' or 'y', and http/https differ at index 4. */
  lemma SchemeUnique(t: string, a: nat, b: nat)
    requires a < |Schemes| && b < |Hosts| && Schemes[a] + Hosts[b] + "/" <= t
    ensures SchemeIndex(t) == a
  {
    var lead := Schemes[a] + Hosts[b] + "/";
    assert t[..|lead|] == lead;
    assert lead[..|Schemes[a]|] == Schemes[a];
    if a == 1 {
      assert t[4] == ':';
    } else if a == 2 {
      assert t[0] == Hosts[b][0];
    }
  }

  /** A host followed by a slash fixes the host alternative: they differ at index 0 or 5. */
  lemma HostUnique(u: string, b: nat)
    requires b < |Hosts| && Hosts[b] + "/" <= u
    ensures HostIndex(u) == Some(b)
  {
    var h := Hosts[b] + "/";
    assert u[..|h|] == h;
    if b == 1 {
      assert u[0] == 'y';
    } else if b == 2 {
      assert u[0] == 'y' && u[5] == 'b';
    }
  }

  /**
   * The long pattern with the lead taking t[..k] and `.+` taking t[k..i]:
   * "v=" at i, eleven id characters after it, and no newline anywhere else.
   */
  predicate LongAt(t: string, k: nat, i: nat) {
    k < i && i + 13 <= |t| && t[i] == 'v' && t[i + 1] == '=' && IsId(t[i + 2..i + 13]) &&
    NoNewline(t[k..i]) && NoNewline(t[i + 13..])
  }

  /**
   * Greedy `.+` giving back one character at a time: the largest j with
   * k < j <= i at which the rest of the long pattern matches.
   */
  function LastLongAt(t: string, k: nat, i: nat): (r: Option<nat>)
    ensures r.Some? ==> k < r.value <= i && LongAt(t, k, r.value)
    ensures forall j | k < j <= i && LongAt(t, k, j) :: r.Some? && j <= r.value
    decreases i
  {
    if i <= k then None
    else if LongAt(t, k, i) then Some(i)
    else LastLongAt(t, k, i - 1)
  }

  /** `re.match` of the long pattern, returning its capture group. */
  function MatchLong(s: string): Option<string> {
    var t := Subject(s);
    match LeadLength(t)
    case None => None
    case Some(k) =>
      if |t| < 13 then None
      else match LastLongAt(t, k, |t| - 13)
        case None => None
        case Some(i) => Some(t[i + 2..i + 13])
  }

  /** The short pattern with the lead taking t[..k]. */
  predicate ShortAt(t: string, k: nat) {
    k + IdLength <= |t| && IsId(t[k..k + IdLength]) && NoNewline(t[k + IdLength..])
  }

  /** `re.match` of the short pattern, returning its capture group. */
  function MatchShort(s: string): Option<string> {
    var t := Subject(s);
    match LeadLength(t)
    case None => None
    case Some(k) => if ShortAt(t, k) then Some(t[k..k + IdLength]) else None
  }

  // ---------------------------------------------------------------------------
  // The recognisers agree with the specification
  // ---------------------------------------------------------------------------

  /** Any long-form split is a LongAt position after the lead. */
  lemma LongFormAt(t: string, lead: string, gap: string, id: string, rest: string)
    requires LongForm(t, lead, gap, id, rest)
    ensures |lead| <= |t| && t[..|lead|] == lead
    ensures LongAt(t, |lead|, |lead| + |gap|)
    ensures id == t[|lead| + |gap| + 2..|lead| + |gap| + 13]
  {
    var k, i := |lead|, |lead| + |gap|;
    assert t[..k] == lead;
    assert t[k..i] == gap;
    assert t[i..i + 2] == "v=";
    assert t[i + 2..i + 13] == id;
    assert t[i + 13..] == rest;
  }

  /** A LongAt position after a lead gives a long-form split. */
  lemma AtLongForm(t: string, k: nat, i: nat)
    requires k <= |t| && IsLead(t[..k]) && LongAt(t, k, i)
    ensures LongForm(t, t[..k], t[k..i], t[i + 2..i + 13], t[i + 13..])
  {
    assert t[i..i + 2] == "v=";
    assert t == t[..k] + t[k..i] + t[i..i + 2] + t[i + 2..i + 13] + t[i + 13..];
  }

  /** Any short-form split puts the identifier right after the lead. */
  lemma ShortFormAt(t: string, lead: string, id: string, rest: string)
    requires ShortForm(t, lead, id, rest)
    ensures |lead| <= |t| && t[..|lead|] == lead
    ensures ShortAt(t, |lead|) && id == t[|lead|..|lead| + IdLength]
  {
    var k := |lead|;
    assert t[..k] == lead;
    assert t[k..k + IdLength] == id;
    assert t[k + IdLength..] == rest;
  }

  /**
   * The long recogniser agrees with the long pattern: it finds a capture
   * exactly when some split exists, and then it is the greedy capture.
   */
  lemma {:induction false} MatchLongAgrees(s: string)
    ensures MatchLong(s).Some? ==> LongCapture(Subject(s), MatchLong(s).value)
    ensures MatchLong(s).None? <==>
            forall lead, gap, id, rest :: !LongForm(Subject(s), lead, gap, id, rest)
  {
    MatchLongComplete(s);
    MatchLongSound(s);
  }

  /** Every long-form split is found by the recogniser. */
  lemma MatchLongComplete(s: string)
    ensures forall lead, gap, id, rest :: LongForm(Subject(s), lead, gap, id, rest) ==> MatchLong(s).Some?
  {
    var t := Subject(s);
    forall lead, gap, id, rest | LongForm(t, lead, gap, id, rest)
      ensures MatchLong(s).Some?
    {
      LongFormAt(t, lead, gap, id, rest);
      var k := |lead|;
      assert LeadLength(t) == Some(k);
      assert LastLongAt(t, k, |t| - 13).Some?;
    }
  }

  /** What the recogniser returns is the capture of the split with the longest gap. */
  lemma MatchLongSound(s: string)
    ensures MatchLong(s).Some? ==> LongCapture(Subject(s), MatchLong(s).value)
  {
    var t := Subject(s);
    if MatchLong(s).Some? {
      var k := LeadLength(t).value;
      var i := LastLongAt(t, k, |t| - 13).value;
      AtLongForm(t, k, i);
      GreedyGap(t, k, i);
      assert LongForm(t, t[..k], t[k..i], MatchLong(s).value, t[i + 13..]) && GapAtMost(t, |t[k..i]|);
    }
  }

  /** When no "v=" after position i completes the long pattern, no gap is longer than i - k. */
  lemma GreedyGap(t: string, k: nat, i: nat)
    requires LeadLength(t) == Some(k) && k <= i
    requires forall j | k < j && LongAt(t, k, j) :: j <= i
    ensures GapAtMost(t, i - k)
  {
    forall lead, gap, id, rest | LongForm(t, lead, gap, id, rest)
      ensures |gap| <= i - k
    {
      LongFormAt(t, lead, gap, id, rest);
    }
  }

  /**
   * The short recogniser agrees with the short pattern: every split yields
   * its identifier, and a result comes from a split.
   */
  lemma {:induction false} MatchShortAgrees(s: string)
    ensures MatchShort(s).Some? ==>
            exists lead, rest :: ShortForm(Subject(s), lead, MatchShort(s).value, rest)
    ensures forall lead, id, rest :: ShortForm(Subject(s), lead, id, rest) ==> MatchShort(s) == Some(id)
  {
    MatchShortComplete(s);
    MatchShortSound(s);
  }

  /** Every short-form split is found by the recogniser, with its identifier. */
  lemma MatchShortComplete(s: string)
    ensures forall lead, id, rest :: ShortForm(Subject(s), lead, id, rest) ==> MatchShort(s) == Some(id)
  {
    var t := Subject(s);
    forall lead, id, rest | ShortForm(t, lead, id, rest)
      ensures MatchShort(s) == Some(id)
    {
      ShortFormAt(t, lead, id, rest);
    }
  }

  /** What the short recogniser returns comes from a short-form split. */
  lemma MatchShortSound(s: string)
    ensures MatchShort(s).Some? ==>
            exists lead, rest :: ShortForm(Subject(s), lead, MatchShort(s).value, rest)
  {
    var t := Subject(s);
    if MatchShort(s).Some? {
      var k := LeadLength(t).value;
      assert t == t[..k] + t[k..k + IdLength] + t[k + IdLength..];
      assert ShortForm(t, t[..k], t[k..k + IdLength], t[k + IdLength..]);
    }
  }

  /** The greedy capture of the long pattern is unique. */
  lemma {:induction false} LongCaptureUnique(t: string, id1: string, id2: string)
    requires LongCapture(t, id1) && LongCapture(t, id2)
    ensures id1 == id2
  {
    var lead1, gap1, rest1 :| LongForm(t, lead1, gap1, id1, rest1) && GapAtMost(t, |gap1|);
    var lead2, gap2, rest2 :| LongForm(t, lead2, gap2, id2, rest2) && GapAtMost(t, |gap2|);
    assert |gap1| == |gap2|;
    LongFormAt(t, lead1, gap1, id1, rest1);
    LongFormAt(t, lead2, gap2, id2, rest2);
    assert |lead1| == |lead2| by {
      assert LeadLength(t) == Some(|lead1|) == Some(|lead2|);
    }
  }

  // ---------------------------------------------------------------------------
  // extract_video_id
  // ---------------------------------------------------------------------------

  datatype Pattern = LongUrl | ShortUrl

  /** The pattern list, in the order it is tried. */
  const Patterns: seq<Pattern> := [LongUrl, ShortUrl]

  /** `re.match(pattern, s)` followed by `match.groups()[-1]`. */
  function Match(p: Pattern, s: string): Option<string> {
    match p
    case LongUrl => MatchLong(s)
    case ShortUrl => MatchShort(s)
  }

  /** The capture of the first pattern in `ps` that matches `s`. */
  function FirstOf(ps: seq<Pattern>, s: string): Option<string> {
    if ps == [] then None
    else if Match(ps[0], s).Some? then Match(ps[0], s)
    else FirstOf(ps[1..], s)
  }

  /** What `extract_video_id` returns. */
  function FirstMatch(url: string): Option<string> {
    FirstOf(Patterns, url)
  }

  /** The loop of `extract_video_id`: try each pattern, stop at the first match. */
  method ExtractVideoId(url: string) returns (videoId: Option<string>)
    ensures videoId == FirstMatch(url)
  {
    videoId := None;
    var n := 0;
    while n < |Patterns|
      invariant 0 <= n <= |Patterns|
      invariant FirstOf(Patterns[n..], url) == FirstMatch(url)
    {
      var m := Match(Patterns[n], url);
      if m.Some? {
        videoId := m;
        break;
      }
      n := n + 1;
    }
  }

  // ---------------------------------------------------------------------------
  // Properties of extract_video_id
  // ---------------------------------------------------------------------------

  /** FirstMatch unfolded: the long pattern first, then the short one. */
  lemma FirstMatchCases(url: string)
    ensures FirstMatch(url) == if MatchLong(url).Some? then MatchLong(url) else MatchShort(url)
  {
    assert Patterns[0] == LongUrl && Patterns[1..] == [ShortUrl];
    assert [ShortUrl][1..] == [];
    assert FirstOf([ShortUrl], url) == MatchShort(url);
  }

  /** `x` occurs in `s` starting at index `i`. */
  predicate OccursAt(x: string, s: string, i: nat) {
    i + |x| <= |s| && s[i..i + |x|] == x
  }

  /**
   * A returned identifier has eleven characters of [a-zA-Z0-9_-] and occurs
   * contiguously in the input.
   */
  lemma {:induction false} ResultIsId(url: string)
    ensures FirstMatch(url).Some? ==>
            IsId(FirstMatch(url).value) &&
            exists i :: OccursAt(FirstMatch(url).value, url, i)
  {
    FirstMatchCases(url);
    MatchLongIsId(url);
    MatchShortIsId(url);
  }

  /** The subject is a prefix of the input, so its slices are slices of the input. */
  lemma SubjectSlice(url: string, i: nat, j: nat)
    requires i <= j <= |Subject(url)|
    ensures OccursAt(Subject(url)[i..j], url, i)
  {
    assert Subject(url) == url[..|Subject(url)|];
  }

  lemma MatchLongIsId(url: string)
    ensures MatchLong(url).Some? ==>
            IsId(MatchLong(url).value) && exists i :: OccursAt(MatchLong(url).value, url, i)
  {
    var t := Subject(url);
    if MatchLong(url).Some? {
      var k := LeadLength(t).value;
      var i := LastLongAt(t, k, |t| - 13).value;
      SubjectSlice(url, i + 2, i + 13);
    }
  }

  lemma MatchShortIsId(url: string)
    ensures MatchShort(url).Some? ==>
            IsId(MatchShort(url).value) && exists i :: OccursAt(MatchShort(url).value, url, i)
  {
    var t := Subject(url);
    if MatchShort(url).Some? {
      var k := LeadLength(t).value;
      SubjectSlice(url, k, k + IdLength);
    }
  }

  /**
   * Nothing is returned unless the input starts with an optional http:// or
   * https:// and then www.youtube.com/, youtu.be/ or youtube/.
   */
  lemma {:induction false} NoneWithoutLead(url: string)
    requires forall k | 0 <= k <= |url| :: !IsLead(url[..k])
    ensures FirstMatch(url) == None
  {
    FirstMatchCases(url);
    LeadOfInput(url);
  }

  /** A lead found in the subject is a lead of the input itself. */
  lemma LeadOfInput(url: string)
    ensures LeadLength(Subject(url)).Some? ==> IsLead(url[..LeadLength(Subject(url)).value])
  {
    var t := Subject(url);
    if LeadLength(t).Some? {
      var k := LeadLength(t).value;
      assert url[..k] == t[..k];
    }
  }

  /** Nothing is returned exactly when neither pattern matches. */
  lemma {:induction false} NoneIffNoShape(url: string)
    ensures FirstMatch(url) == None <==>
            (forall lead, gap, id, rest :: !LongForm(Subject(url), lead, gap, id, rest)) &&
            (forall lead, id, rest :: !ShortForm(Subject(url), lead, id, rest))
  {
    FirstMatchCases(url);
    MatchLongAgrees(url);
    MatchShortAgrees(url);
  }

  /**
   * The first pattern wins: once the long pattern matches, its greedy capture
   * is returned, whether or not the short pattern would match too.
   */
  lemma {:induction false} LongFormWins(url: string, lead: string, gap: string, id: string, rest: string)
    requires LongForm(Subject(url), lead, gap, id, rest)
    ensures FirstMatch(url).Some? && LongCapture(Subject(url), FirstMatch(url).value)
  {
    FirstMatchCases(url);
    MatchLongAgrees(url);
  }

  /** The greedy capture of the long pattern is what is returned. */
  lemma {:induction false} LongCaptureIsResult(url: string, id: string)
    requires LongCapture(Subject(url), id)
    ensures FirstMatch(url) == Some(id)
  {
    var lead, gap, rest :| LongForm(Subject(url), lead, gap, id, rest) && GapAtMost(Subject(url), |gap|);
    LongFormWins(url, lead, gap, id, rest);
    LongCaptureUnique(Subject(url), id, FirstMatch(url).value);
  }

  /**
   * When only the short pattern matches, the result is the eleven characters
   * right after the slash that ends the lead.
   */
  lemma {:induction false} ShortFormOtherwise(url: string, lead: string, id: string, rest: string)
    requires ShortForm(Subject(url), lead, id, rest)
    requires forall lead', gap', id', rest' :: !LongForm(Subject(url), lead', gap', id', rest')
    ensures FirstMatch(url) == Some(id)
    ensures id == url[|lead|..|lead| + IdLength]
  {
    FirstMatchCases(url);
    MatchLongAgrees(url);
    MatchShortAgrees(url);
    ShortFormAt(Subject(url), lead, id, rest);
  }

  /** The lead of a share link, https://youtu.be/ (17 characters). */
  const ShareLead: string := "https://youtu.be/"

  /** The lead of a watch link, https://www.youtube.com/ (24 characters). */
  const WatchLead: string := "https://www.youtube.com/"

  /** An identifier wrapped in a watch link yields that identifier. */
  lemma {:induction false} WatchLinkYieldsId(id: string)
    requires IsId(id)
    ensures FirstMatch(WatchLead + "watch?v=" + id) == Some(id)
  {
    var url := WatchLead + "watch?v=" + id;
    assert Subject(url) == url by {
      assert url[|url| - 1] == id[IdLength - 1];
    }
    assert url == WatchLead + "watch?" + "v=" + id + "";
    LeadsAreLeads();
    assert LongForm(url, WatchLead, "watch?", id, "");
    assert url[..24] == WatchLead;
    WatchGapBound(url);
    LongCaptureIsResult(url, id);
  }

  /** After the watch-link lead, `.+` can take at most what the id and "v=" leave over. */
  lemma WatchGapBound(url: string)
    requires 37 <= |url| && url[..24] == WatchLead
    ensures GapAtMost(url, |url| - 37)
  {
    LeadsAreLeads();
    assert LeadLength(url) == Some(24);
    forall lead, gap, id', rest | LongForm(url, lead, gap, id', rest)
      ensures |gap| <= |url| - 37
    {
      LongFormAt(url, lead, gap, id', rest);
    }
  }

  /** A share link is too short for "v=" and an id to follow its lead and a gap. */
  lemma ShareLinkNotLong(url: string)
    requires |url| == 17 + IdLength && url[..17] == ShareLead
    ensures forall lead, gap, id, rest :: !LongForm(url, lead, gap, id, rest)
  {
    LeadsAreLeads();
    assert LeadLength(url) == Some(17);
    forall lead, gap, id, rest | LongForm(url, lead, gap, id, rest)
      ensures false
    {
      LongFormAt(url, lead, gap, id, rest);
    }
  }

  lemma LeadsAreLeads()
    ensures IsLead(WatchLead) && IsLead(ShareLead)
  {
    assert WatchLead == Schemes[0] + Hosts[0] + "/";
    assert ShareLead == Schemes[0] + Hosts[1] + "/";
  }

  /** An identifier wrapped in a share link yields that identifier. */
  lemma {:induction false} ShareLinkYieldsId(id: string)
    requires IsId(id)
    ensures FirstMatch(ShareLead + id) == Some(id)
  {
    var url := ShareLead + id;
    assert Subject(url) == url by {
      assert url[|url| - 1] == id[IdLength - 1];
    }
    LeadsAreLeads();
    assert url[..17] == ShareLead;
    assert url == ShareLead + id + "";
    assert ShortForm(url, ShareLead, id, "");
    ShareLinkNotLong(url);
    ShortFormOtherwise(url, ShareLead, id, "");
  }

  /** The identifier of the two example links. */
  const ExampleId: string := "dQw4w9WgXcQ"

  /** The identifier is well formed. */
  lemma ExampleIdIsId()
    ensures IsId(ExampleId)
  {}

  /** A watch link and a share link for dQw4w9WgXcQ both yield it. */
  lemma ExampleLinks()
    ensures FirstMatch(WatchLead + "watch?v=" + ExampleId) == Some(ExampleId)
    ensures FirstMatch(ShareLead + ExampleId) == Some(ExampleId)
  {
    ExampleIdIsId();
    WatchLinkYieldsId(ExampleId);
    ShareLinkYieldsId(ExampleId);
  }

  /**
   * Greedy `.+`: with two "v=" parameters the one that comes last supplies the
   * identifier.
   */
  lemma {:induction false} LastParameterWins(first: string, id: string)
    requires IsId(first) && IsId(id)
    ensures FirstMatch(WatchLead + "watch?v=" + first + "&v=" + id) == Some(id)
  {
    var url := WatchLead + "watch?v=" + first + "&v=" + id;
    var gap := "watch?v=" + first + "&";
    assert Subject(url) == url by {
      assert url[|url| - 1] == id[IdLength - 1];
    }
    assert url == WatchLead + gap + "v=" + id + "";
    LeadsAreLeads();
    assert NoNewline(gap) by {
      assert forall i | 0 <= i < |first| :: first[i] != '\n';
      assert gap == "watch?v=" + first + "&";
    }
    assert LongForm(url, WatchLead, gap, id, "");
    assert url[..24] == WatchLead;
    WatchGapBound(url);
    LongCaptureIsResult(url, id);
  }

  /**
   * A link on the bare host youtube.com (no www.) matches neither pattern:
   * `youtu\.?be` stops at "youtube" and must be followed by a slash.
   */
  lemma {:induction false} BareDomainRejected(path: string)
    ensures FirstMatch("https://youtube.com/" + path) == None
  {
    var url := "https://youtube.com/" + path;
    assert url[..8] == Schemes[0];
    assert SchemeIndex(url) == 0;
    var u := url[8..];
    assert u[0] == 'y' && u[5] == 'b' && u[7] == '.';
    assert HostIndex(u) == None;
    assert LeadLength(url) == None;
    NoneWithoutLead(url);
  }
}
