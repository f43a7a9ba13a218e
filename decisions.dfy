/** The decision rules inside class Bot of TikTokBot/bot.py, with every read of the
    page (the current URL, a button's caption, an icon's fill colour, the session's flag
    string, the outcome of one attempt at pressing "next") taken as an input. */
module Decisions {
  import opened Wrappers
  import opened Text

  // ---------------------------------------------------------------------------
  // Bot.get_video_id
  // ---------------------------------------------------------------------------

  const VideoSegment: string := "video"

  /** Bot.get_video_id: the '/'-segment right after the first segment equal to
      "video", cut at its first '?'. list.index fails when there is no such segment,
      and the subscript fails when nothing follows it. */
  function GetVideoId(url: string): (r: Result<string>)
    ensures r == Err(ValueError) <==> "video" !in Split(url, '/')
    ensures r == Err(IndexError) <==> "video" in Split(url, '/') && Split(url, '/')[|Split(url, '/')| - 1] == "video"
                                       && "video" !in Split(url, '/')[..|Split(url, '/')| - 1]
    ensures r.Ok? ==> '/' !in r.value && '?' !in r.value
  {
    var segments := Split(url, '/');
    match IndexOf(segments, "video")
    case None => Err(ValueError)
    case Some(k) =>
      if k + 1 < |segments| then
        assert segments[..|segments| - 1][k] == "video";
        var id := Split(segments[k + 1], '?')[0];
        assert forall i :: 0 <= i < |id| ==> id[i] == segments[k + 1][i];
        Ok(id)
      else
        assert segments[..|segments| - 1] == segments[..k];
        Err(IndexError)
  }

  /** A URL built from segments gives back the id that follows its first "video"
      segment, whatever query string is appended and whatever segments follow. */
  lemma GetVideoIdOfUrl(before: seq<string>, id: string, query: string, after: seq<string>)
    requires VideoSegment !in before
    requires forall k :: 0 <= k < |before| ==> '/' !in before[k]
    requires forall k :: 0 <= k < |after| ==> '/' !in after[k]
    requires '/' !in id && '?' !in id && '/' !in query
    requires query == [] || query[0] == '?'
    ensures GetVideoId(Join(before + [VideoSegment] + ([id + query] + after), '/')) == Ok(id)
  {
    var tail := [id + query] + after;
    UrlSegments(before, id + query, after);
    IndexOfFirst(before, VideoSegment, tail);
    assert (before + [VideoSegment] + tail)[|before| + 1] == id + query;
    IdOfSegment(id, query);
  }

  /** The segments of such a URL are the ones it was joined from. */
  lemma UrlSegments(before: seq<string>, segment: string, after: seq<string>)
    requires forall k :: 0 <= k < |before| ==> '/' !in before[k]
    requires forall k :: 0 <= k < |after| ==> '/' !in after[k]
    requires '/' !in segment
    ensures var segments := before + [VideoSegment] + ([segment] + after);
            Split(Join(segments, '/'), '/') == segments
  {
    var tail := [segment] + after;
    SegmentsWithout([segment], after, '/');
    assert '/' !in VideoSegment;
    SegmentsWithout([VideoSegment], tail, '/');
    SegmentsWithout(before, [VideoSegment] + tail, '/');
    assert before + [VideoSegment] + tail == before + ([VideoSegment] + tail);
    SplitJoin(before + [VideoSegment] + tail, '/');
  }

  lemma IndexOfFirst<T>(before: seq<T>, x: T, after: seq<T>)
    requires x !in before
    ensures IndexOf(before + [x] + after, x) == Some(|before|)
  {
    var xs := before + [x] + after;
    assert xs[|before|] == x;
    assert xs[..|before|] == before;
  }

  lemma SegmentsWithout(xs: seq<string>, ys: seq<string>, c: char)
    requires forall k :: 0 <= k < |xs| ==> c !in xs[k]
    requires forall k :: 0 <= k < |ys| ==> c !in ys[k]
    ensures forall k :: 0 <= k < |xs + ys| ==> c !in (xs + ys)[k]
  {
    forall k | 0 <= k < |xs + ys| ensures c !in (xs + ys)[k] {
      if k >= |xs| {
        assert (xs + ys)[k] == ys[k - |xs|];
      }
    }
  }

  /** Cutting at the first '?' removes the query string. */
  lemma IdOfSegment(id: string, query: string)
    requires '?' !in id
    requires query == [] || query[0] == '?'
    ensures Split(id + query, '?')[0] == id
  {
    if query == [] {
      assert id + query == id;
      SplitWithoutSeparator(id, '?');
    } else {
      assert query == ['?'] + query[1..];
      assert id + query == id + ['?'] + query[1..];
      SplitAtSeparator(id, '?', query[1..]);
    }
  }

  /** The example URL of the method's comment, with the id and the query written apart. */
  lemma GetVideoIdExample()
    ensures var id := "7068338808634215686";
            var query := "?is_copy_url=1&is_from_webapp=v1";
            GetVideoId(Join(["https:", "", "www.tiktok.com", "@user"] + [VideoSegment] + ([id + query] + []), '/')) == Ok(id)
  {
    var id := "7068338808634215686";
    var query := "?is_copy_url=1&is_from_webapp=v1";
    assert forall k :: 0 <= k < |id| ==> IsDigit(id[k]);
    assert forall k :: 0 <= k < |query| ==> query[k] != '/';
    GetVideoIdOfUrl(["https:", "", "www.tiktok.com", "@user"], id, query, []);
  }

  // ---------------------------------------------------------------------------
  // Bot.close_cookie_banner
  // ---------------------------------------------------------------------------

  /** The position believed to hold "accept": the first button if its lower-cased
      caption contains "accept", the second otherwise. */
  function AcceptIndex(firstLabel: string): (ix: nat)
    ensures ix <= 1
    ensures ix == 0 <==> Contains(Lower(firstLabel), "accept")
  {
    if Contains(Lower(firstLabel), "accept") then 0 else 1
  }

  /** The position clicked: the accept position when accepting, the other one otherwise. */
  function CookieButtonIndex(firstLabel: string, accept: bool): nat
  {
    var acceptIx := AcceptIndex(firstLabel);
    if accept then acceptIx else (acceptIx + 1) % 2
  }

  /** Accepting and rejecting always click two different buttons among the first two. */
  lemma CookieChoicesDistinct(firstLabel: string)
    ensures CookieButtonIndex(firstLabel, true) <= 1 && CookieButtonIndex(firstLabel, false) <= 1
    ensures CookieButtonIndex(firstLabel, true) != CookieButtonIndex(firstLabel, false)
  {
  }

  /** Bot.close_cookie_banner: Ok(None) when no banner appears or it has no buttons,
      Ok(Some(i)) when button i is clicked, and IndexError when the chosen position is
      the second one of a one-button banner. */
  function CloseCookieBanner(banner: Option<seq<string>>, accept: bool): (r: Result<Option<nat>>)
    ensures r.Ok? && r.value.Some? ==> banner.Some? && r.value.value < |banner.value|
    ensures banner.Some? && |banner.value| >= 2 ==>
              r == Ok(Some(CookieButtonIndex(banner.value[0], accept)))
    ensures banner.Some? && |banner.value| == 1 ==>
              (r == Ok(Some(0)) <==> (accept <==> Contains(Lower(banner.value[0]), "accept"))) &&
              (r != Ok(Some(0)) ==> r == Err(IndexError))
    ensures r.Ok? && r.value.None? <==> banner.None? || banner.value == []
  {
    match banner
    case None => Ok(None)
    case Some(labels) =>
      if |labels| == 0 then Ok(None)
      else
        var ix := CookieButtonIndex(labels[0], accept);
        if ix < |labels| then Ok(Some(ix)) else Err(IndexError)
  }

  /** On a banner whose first two labels are one "accept" button and one other button,
      accepting clicks the button labelled accept and rejecting clicks the other one. */
  lemma CookieBannerFollowsLabels(labels: seq<string>, accept: bool)
    requires |labels| >= 2
    requires Contains(Lower(labels[0]), "accept") != Contains(Lower(labels[1]), "accept")
    ensures CloseCookieBanner(Some(labels), accept).Ok?
    ensures CloseCookieBanner(Some(labels), accept).value.Some?
    ensures var i := CloseCookieBanner(Some(labels), accept).value.value;
            i <= 1 && (Contains(Lower(labels[i]), "accept") <==> accept)
  {
  }

  /** A one-button banner whose button is not labelled accept cannot be accepted:
      the click goes to a second button that does not exist. */
  lemma CookieBannerSingleButton(caption: string)
    requires !Contains(Lower(caption), "accept")
    ensures CloseCookieBanner(Some([caption]), true) == Err(IndexError)
    ensures CloseCookieBanner(Some([caption]), false) == Ok(Some(0))
  {
  }

  /** A one-button banner whose button is labelled accept cannot be rejected: the
      reject position is then the missing second button. */
  lemma CookieBannerSingleAcceptButton(caption: string)
    requires Contains(Lower(caption), "accept")
    ensures CloseCookieBanner(Some([caption]), true) == Ok(Some(0))
    ensures CloseCookieBanner(Some([caption]), false) == Err(IndexError)
  {
  }

  // ---------------------------------------------------------------------------
  // Bot.like_video and Bot.follow_video
  // ---------------------------------------------------------------------------

  /** Position of the first decimal digit, if any. */
  function FirstDigitIndex(s: string): (r: Option<nat>)
    ensures r.None? <==> forall i :: 0 <= i < |s| ==> !IsDigit(s[i])
    ensures r.Some? ==> r.value < |s| && IsDigit(s[r.value])
    ensures r.Some? ==> forall i :: 0 <= i < r.value ==> !IsDigit(s[i])
  {
    if s == [] then None
    else if IsDigit(s[0]) then Some(0)
    else match FirstDigitIndex(s[1..])
      case None => None
      case Some(k) => Some(k + 1)
  }

  /** The longest prefix made of digits. */
  function DigitPrefix(s: string): (r: string)
    ensures |r| <= |s| && r == s[..|r|] && AllDigits(r)
    ensures |r| < |s| ==> !IsDigit(s[|r|])
  {
    if s != [] && IsDigit(s[0]) then
      var rest := DigitPrefix(s[1..]);
      assert [s[0]] + rest == s[..|rest| + 1];
      [s[0]] + rest
    else []
  }

  /** The first element of re.findall(r'\d+', s), as a number. */
  function LeadingNumber(s: string): (r: Option<nat>)
    ensures r.None? <==> forall i :: 0 <= i < |s| ==> !IsDigit(s[i])
  {
    match FirstDigitIndex(s)
    case None => None
    case Some(i) => Some(DigitsValue(DigitPrefix(s[i..])))
  }

  /** Whether like_video takes the video as liked, from its heart icon's fill colour:
      white, near-black and currentColor mean not liked, "none" means liked, and any
      other colour is liked when its first number is at least 100. */
  function LikedFromFill(fill: string): bool
  {
    if fill == "#fff" || fill == "#161823" || fill == "currentColor" then false
    else if fill == "none" then true
    else match LeadingNumber(fill)
      case None => false
      case Some(first) => first >= 100
  }

  /** What like_video finds on the page: no like button, or the button whose heart
      icon carries the given fill attribute (None when the svg has no such attribute,
      where get_attribute answers None). */
  datatype LikeButton = NoLikeButton | LikeButtonFound(fill: Option<string>)

  /** Bot.like_video: whether the like button is clicked. Nothing happens when the
      button is not found. A missing fill attribute passes the colour comparisons and
      makes re.findall raise a TypeError. Otherwise the button is clicked iff the
      wanted state differs from the state read off the icon. */
  function LikeVideo(button: LikeButton, like: bool): (r: Result<bool>)
    ensures button.NoLikeButton? ==> r == Ok(false)
    ensures r.Err? <==> button.LikeButtonFound? && button.fill.None?
    ensures r.Err? ==> r.error == TypeError
  {
    match button
    case NoLikeButton => Ok(false)
    case LikeButtonFound(fill) =>
      if fill.None? then Err(TypeError) else Ok(like != LikedFromFill(fill.value))
  }

  /** A click toggles the like state, so the wanted state is what results ... */
  lemma LikeVideoReachesWanted(fill: string, like: bool)
    ensures var r := LikeVideo(LikeButtonFound(Some(fill)), like);
            r.Ok? && (if r.value then !LikedFromFill(fill) else LikedFromFill(fill)) == like
  {
  }

  /** ... and asking for the state the icon already shows does nothing. */
  lemma LikeVideoIdempotent(fill: string)
    ensures LikeVideo(LikeButtonFound(Some(fill)), LikedFromFill(fill)) == Ok(false)
  {
  }

  /** The number read from a colour is its first digit run, wherever it stands. */
  lemma LeadingNumberOf(prefix: string, digits: string, rest: string)
    requires forall i :: 0 <= i < |prefix| ==> !IsDigit(prefix[i])
    requires |digits| >= 1 && AllDigits(digits)
    requires rest == [] || !IsDigit(rest[0])
    ensures LeadingNumber(prefix + digits + rest) == Some(DigitsValue(digits))
  {
    var s := prefix + (digits + rest);
    var t := digits + rest;
    assert prefix + digits + rest == s;
    assert FirstDigitIndex(s) == Some(|prefix|) by { FirstDigitAt(prefix, t); }
    assert s[|prefix|..] == t;
    assert DigitPrefix(t) == digits by { DigitPrefixOf(digits, rest); }
    LeadingNumberAt(s, |prefix|);
  }

  /** The number is read from the first digit on. */
  lemma LeadingNumberAt(s: string, p: nat)
    requires FirstDigitIndex(s) == Some(p)
    ensures p <= |s| && LeadingNumber(s) == Some(DigitsValue(DigitPrefix(s[p..])))
  {
  }

  /** A text whose first digit follows a digit-free prefix has it at the prefix's end. */
  lemma FirstDigitAt(prefix: string, tail: string)
    requires forall i :: 0 <= i < |prefix| ==> !IsDigit(prefix[i])
    requires |tail| >= 1 && IsDigit(tail[0])
    ensures FirstDigitIndex(prefix + tail) == Some(|prefix|)
  {
    var s := prefix + tail;
    assert s[|prefix|] == tail[0];
    assert forall i :: 0 <= i < |prefix| ==> s[i] == prefix[i];
  }

  lemma {:induction false} DigitPrefixOf(digits: string, rest: string)
    requires AllDigits(digits)
    requires rest == [] || !IsDigit(rest[0])
    ensures DigitPrefix(digits + rest) == digits
    decreases |digits|
  {
    if digits != [] {
      DigitPrefixOf(digits[1..], rest);
      assert (digits + rest)[1..] == digits[1..] + rest;
      assert [digits[0]] + digits[1..] == digits;
    } else {
      assert digits + rest == rest;
    }
  }

  /** The keyword fills: white, near-black and currentColor read as not liked, "none"
      as liked. */
  lemma LikedFromFillKeywords()
    ensures LikedFromFill("none")
    ensures !LikedFromFill("#fff") && !LikedFromFill("#161823") && !LikedFromFill("currentColor")
  {
  }

  /** A colour that is not one of the keyword fills is liked exactly when its first
      digit run is at least 100. */
  lemma LikedFromFillNumber(prefix: string, digits: string, rest: string)
    requires forall i :: 0 <= i < |prefix| ==> !IsDigit(prefix[i])
    requires |digits| >= 1 && AllDigits(digits)
    requires rest == [] || !IsDigit(rest[0])
    requires prefix + digits + rest !in {"#fff", "#161823", "currentColor", "none"}
    ensures LikedFromFill(prefix + digits + rest) <==> DigitsValue(digits) >= 100
  {
    var fill := prefix + digits + rest;
    assert fill != "#fff" && fill != "#161823" && fill != "currentColor" && fill != "none";
    assert LeadingNumber(fill) == Some(DigitsValue(digits)) by {
      LeadingNumberOf(prefix, digits, rest);
    }
  }

  /** TikTok's red as rgb() reads as liked. */
  lemma LikedFromFillRgbRed()
    ensures LikedFromFill("rgb(" + "254" + ", 44, 85)")
  {
    assert DigitsValue("254") == 254 by {
      assert "254"[..2] == "25";
      assert "25"[..1] == "2";
    }
    LikedFromFillNumber("rgb(", "254", ", 44, 85)");
  }

  /** TikTok's dark grey as rgba() reads as not liked. */
  lemma LikedFromFillRgbGrey()
    ensures !LikedFromFill("rgba(" + "22" + ", 24, 35, 1)")
  {
    assert DigitsValue("22") == 22 by {
      assert "22"[..1] == "2";
    }
    LikedFromFillNumber("rgba(", "22", ", 24, 35, 1)");
  }

  /** A hex colour is read by its first digit run only: TikTok's red #fe2c55 reads as 2
      and is taken as not liked, and a colour without digits is never liked. */
  lemma LikedFromFillHex()
    ensures !LikedFromFill("#fe" + "2" + "c55")
    ensures !LikedFromFill("red")
  {
    LeadingNumberOf("#fe", "2", "c55");
    assert DigitsValue("2") == 2 by {
      assert "2"[..0] == "";
    }
  }

  /** Bot.follow_video: whether the follow button is clicked, from the caption of the
      button found at the usual places (primary) or by the class-name fallback. The
      fallback's wait raises a timeout when nothing is found, so the "not found"
      branch after it is never reached. The button is clicked exactly when the wanted
      state differs from the one its caption shows. */
  function FollowVideo(primary: Option<string>, fallback: Option<string>, follow: bool): (r: Result<bool>)
    ensures r.Err? <==> primary.None? && fallback.None?
    ensures r.Err? ==> r.error == TimeoutError
    ensures r.Ok? ==> r.value == (follow != (FollowCaption(primary, fallback) == "Following"))
  {
    var button := if primary.Some? then primary else fallback;
    match button
    case None => Err(TimeoutError)
    case Some(caption) => Ok(follow != (caption == "Following"))
  }

  /** The caption of the button follow_video acts on: the primary one when found. */
  function FollowCaption(primary: Option<string>, fallback: Option<string>): string
    requires primary.Some? || fallback.Some?
  {
    if primary.Some? then primary.value else fallback.value
  }

  /** A click toggles the follow state, so whichever button was found, the creator
      ends up followed exactly when that was asked for. */
  lemma FollowVideoReachesWanted(primary: Option<string>, fallback: Option<string>, follow: bool)
    requires primary.Some? || fallback.Some?
    ensures var following := FollowCaption(primary, fallback) == "Following";
            FollowVideo(primary, fallback, follow).Ok?
            && (if FollowVideo(primary, fallback, follow).value then !following else following) == follow
  {
  }

  // ---------------------------------------------------------------------------
  // Bot.check_run_paused
  // ---------------------------------------------------------------------------

  /** The session flag string, split at commas, holds the exact token "paused". */
  predicate FlagsSayPaused(flags: string)
  {
    "paused" in Split(flags, ',')
  }

  /** Flags written as a comma-joined list are read back token by token: "paused"
      must be a whole token, so "unpaused" or "paused2" do not pause the run. */
  lemma FlagsSayPausedOfJoin(flags: seq<string>)
    requires |flags| >= 1
    requires forall k :: 0 <= k < |flags| ==> ',' !in flags[k]
    ensures FlagsSayPaused(Join(flags, ',')) <==> "paused" in flags
  {
    SplitJoin(flags, ',');
  }

  predicate ReadSaysPaused(read: Option<string>)
  {
    read.Some? && FlagsSayPaused(read.value)
  }

  /** How many flagReads of the flags, from the first, say "paused". */
  function LeadingPaused(flagReads: seq<Option<string>>): (k: nat)
    ensures k <= |flagReads|
    ensures forall j :: 0 <= j < k ==> ReadSaysPaused(flagReads[j])
    ensures k < |flagReads| ==> !ReadSaysPaused(flagReads[k])
  {
    if flagReads == [] || !ReadSaysPaused(flagReads[0]) then 0 else 1 + LeadingPaused(flagReads[1..])
  }

  /** Bot.check_run_paused over the successive flagReads of the flag string (None when the
      flag is unset). It polls until a read is unset or lacks "paused"; `polls` is how
      many flagReads it used, `announced` whether it reported the run paused (and so
      reports it resumed). When the flagReads run out first, the run is still paused. */
  method CheckRunPaused(flagReads: seq<Option<string>>) returns (polls: nat, announced: bool, stillPaused: bool)
    ensures stillPaused <==> LeadingPaused(flagReads) == |flagReads|
    ensures polls == if stillPaused then |flagReads| else LeadingPaused(flagReads) + 1
    ensures announced <==> LeadingPaused(flagReads) > 0
  {
    var paused := true;
    announced := false;
    polls := 0;
    while paused && polls < |flagReads|
      invariant polls <= |flagReads|
      invariant forall j :: 0 <= j < polls - 1 ==> ReadSaysPaused(flagReads[j])
      invariant paused ==> forall j :: 0 <= j < polls ==> ReadSaysPaused(flagReads[j])
      invariant !paused ==> 0 < polls && !ReadSaysPaused(flagReads[polls - 1])
      invariant announced <==> (if paused then polls > 0 else polls > 1)
    {
      var flags := flagReads[polls];
      polls := polls + 1;
      if flags.Some? {
        paused := FlagsSayPaused(flags.value);
        if paused && !announced {
          announced := true;
        }
      } else {
        paused := false;
      }
    }
    stillPaused := paused;
    assert !paused ==> LeadingPaused(flagReads) == polls - 1;
    assert paused ==> LeadingPaused(flagReads) == polls;
  }

  // ---------------------------------------------------------------------------
  // Bot.next_video
  // ---------------------------------------------------------------------------

  /** What one pass of next_video's loop body met. */
  datatype Attempt =
    | Clicked          // the down button was found and clicked
    | ButtonMissing    // no down button was located: a counted failure
    | NotInteractable  // ElementNotInteractableException: retried, not counted
    | TimedOut         // TimeoutException: a counted failure
    | Failed           // any other exception: give up at once

  /** One turn of the loop: the page's URL when the loop condition reads the video id,
      and what the body then met. */
  datatype Poll = Poll(url: string, attempt: Attempt)

  predicate IsCounted(a: Attempt) { a == ButtonMissing || a == TimedOut }

  /** The loop condition finds the id it started from. */
  predicate SameId(p: Poll, cur: string)
  {
    GetVideoId(p.url) == Ok(cur)
  }

  /** The number of counted failures among the attempts. */
  function CountedFailures(polls: seq<Poll>): nat
  {
    if polls == [] then 0
    else (if IsCounted(polls[0].attempt) then 1 else 0) + CountedFailures(polls[1..])
  }

  /** The result of next_video's loop, with `cur` the id read at entry and `count`
      counted failures so far: Some(Ok(true)) once the id read differs, Some(Ok(false))
      once 3 failures are counted or any other exception occurs, Some(Err(e)) when
      get_video_id raises at the loop test (outside the try, so the exception leaves
      next_video), None if the polls run out first. */
  function NextVideoOutcome(cur: string, polls: seq<Poll>, count: nat): Option<Result<bool>>
    decreases |polls|
  {
    if polls == [] then None
    else match GetVideoId(polls[0].url)
      case Err(e) => Some(Err(e))
      case Ok(id) =>
        if id != cur then Some(Ok(true))
        else if count >= 3 then Some(Ok(false))
        else match polls[0].attempt
          case Failed => Some(Ok(false))
          case _ => NextVideoOutcome(cur, polls[1..], if IsCounted(polls[0].attempt) then count + 1 else count)
  }

  /** Bot.next_video, from the URL shown at entry: reading the entry id can raise too. */
  method NextVideo(entryUrl: string, polls: seq<Poll>) returns (moved: Option<Result<bool>>)
    ensures GetVideoId(entryUrl).Err? ==> moved == Some(Err(GetVideoId(entryUrl).error))
    ensures GetVideoId(entryUrl).Ok? ==> moved == NextVideoOutcome(GetVideoId(entryUrl).value, polls, 0)
  {
    var entry := GetVideoId(entryUrl);
    if entry.Err? {
      return Some(Err(entry.error));
    }
    moved := NextVideoFrom(entry.value, polls);
  }

  /** The loop of Bot.next_video, once the id at entry has been read as `cur`. */
  method NextVideoFrom(cur: string, polls: seq<Poll>) returns (moved: Option<Result<bool>>)
    ensures moved == NextVideoOutcome(cur, polls, 0)
  {
    var timeoutCount := 0;
    var k := 0;
    while k < |polls|
      invariant 0 <= k <= |polls|
      invariant timeoutCount == CountedFailures(polls[..k]) <= 3
      invariant NextVideoOutcome(cur, polls[k..], timeoutCount) == NextVideoOutcome(cur, polls, 0)
    {
      assert CountedFailures(polls[..k + 1]) == timeoutCount + (if IsCounted(polls[k].attempt) then 1 else 0) by {
        assert polls[..k + 1] == polls[..k] + [polls[k]];
        CountedFailuresAppend(polls[..k], polls[k]);
      }
      var id := GetVideoId(polls[k].url);
      NextVideoOutcomeAt(cur, polls, k, timeoutCount);
      if id.Err? {
        return Some(Err(id.error));
      }
      if id.value != cur {
        return Some(Ok(true));
      }
      if timeoutCount >= 3 {
        return Some(Ok(false));
      }
      match polls[k].attempt {
        case Clicked =>
        case ButtonMissing =>
          timeoutCount := timeoutCount + 1;
        case NotInteractable =>
        case TimedOut =>
          timeoutCount := timeoutCount + 1;
        case Failed =>
          return Some(Ok(false));
      }
      k := k + 1;
    }
    return None;
  }

  /** The outcome from turn k on, unfolded by one turn. */
  lemma NextVideoOutcomeAt(cur: string, polls: seq<Poll>, k: nat, count: nat)
    requires k < |polls|
    ensures var id := GetVideoId(polls[k].url);
            NextVideoOutcome(cur, polls[k..], count) ==
              if id.Err? then Some(Err(id.error))
              else if id.value != cur then Some(Ok(true))
              else if count >= 3 || polls[k].attempt == Failed then Some(Ok(false))
              else NextVideoOutcome(cur, polls[k + 1..], if IsCounted(polls[k].attempt) then count + 1 else count)
  {
    assert polls[k..][0] == polls[k] && polls[k..][1..] == polls[k + 1..];
  }

  lemma {:induction false} CountedFailuresAppend(polls: seq<Poll>, p: Poll)
    ensures CountedFailures(polls + [p]) == CountedFailures(polls) + (if IsCounted(p.attempt) then 1 else 0)
    decreases |polls|
  {
    if polls != [] {
      assert (polls + [p])[1..] == polls[1..] + [p];
      CountedFailuresAppend(polls[1..], p);
    }
  }

  /** next_video answers True only after it has read an id other than the one it
      started from. */
  lemma {:induction false} NextVideoTrueMeansMoved(cur: string, polls: seq<Poll>, count: nat)
    requires NextVideoOutcome(cur, polls, count) == Some(Ok(true))
    ensures exists k :: 0 <= k < |polls| && GetVideoId(polls[k].url).Ok? && GetVideoId(polls[k].url).value != cur
    decreases |polls|
  {
    if SameId(polls[0], cur) {
      NextVideoTrueMeansMoved(cur, polls[1..], if IsCounted(polls[0].attempt) then count + 1 else count);
      var k :| 0 <= k < |polls[1..]| && GetVideoId(polls[1..][k].url).Ok? && GetVideoId(polls[1..][k].url).value != cur;
      assert polls[k + 1] == polls[1..][k];
    }
  }

  /** next_video raises only what get_video_id raised at a loop test, every earlier test
      having found the id it started from. */
  lemma {:induction false} NextVideoRaisesOnlyFromId(cur: string, polls: seq<Poll>, count: nat, e: PyError)
    requires NextVideoOutcome(cur, polls, count) == Some(Err(e))
    ensures exists k :: RaisedAt(polls, cur, k, e)
    decreases |polls|
  {
    if GetVideoId(polls[0].url).Err? {
      assert RaisedAt(polls, cur, 0, e);
    } else {
      NextVideoRaisesOnlyFromId(cur, polls[1..], if IsCounted(polls[0].attempt) then count + 1 else count, e);
      var k :| RaisedAt(polls[1..], cur, k, e);
      assert polls[k + 1] == polls[1..][k];
      forall j | 1 <= j <= k
        ensures SameId(polls[j], cur)
      {
        assert polls[j] == polls[1..][j - 1];
      }
      assert RaisedAt(polls, cur, k + 1, e);
    }
  }

  /** Turn k's loop test raised e, after every earlier test found the starting id. */
  predicate RaisedAt(polls: seq<Poll>, cur: string, k: int, e: PyError)
  {
    && 0 <= k < |polls|
    && GetVideoId(polls[k].url) == Err(e)
    && (forall j :: 0 <= j < k ==> SameId(polls[j], cur))
  }

  /** next_video answers False only when, with the id unchanged throughout, another
      exception occurred or three failures had been counted. */
  lemma {:induction false} NextVideoFalseMeansGaveUp(cur: string, polls: seq<Poll>, count: nat)
    requires NextVideoOutcome(cur, polls, count) == Some(Ok(false))
    ensures exists k :: GaveUpAt(polls, cur, count, k)
    decreases |polls|
  {
    if count >= 3 || polls[0].attempt == Failed {
      assert polls[..0] == [];
      assert GaveUpAt(polls, cur, count, 0);
    } else {
      var next := if IsCounted(polls[0].attempt) then count + 1 else count;
      NextVideoFalseMeansGaveUp(cur, polls[1..], next);
      var k :| GaveUpAt(polls[1..], cur, next, k);
      GaveUpShift(polls, cur, count, k);
    }
  }

  /** Turn k of the polls is where next_video gives up: the id has not changed up to
      it, and three failures are counted before it or it met another exception. */
  predicate GaveUpAt(polls: seq<Poll>, cur: string, count: nat, k: int)
  {
    && 0 <= k < |polls|
    && (forall j :: 0 <= j <= k ==> SameId(polls[j], cur))
    && (count + CountedFailures(polls[..k]) >= 3 || polls[k].attempt == Failed)
  }

  /** Giving up at turn k after the first turn is giving up at turn k + 1. */
  lemma GaveUpShift(polls: seq<Poll>, cur: string, count: nat, k: int)
    requires |polls| >= 1 && SameId(polls[0], cur)
    requires GaveUpAt(polls[1..], cur, if IsCounted(polls[0].attempt) then count + 1 else count, k)
    ensures GaveUpAt(polls, cur, count, k + 1)
  {
    assert CountedFailures(polls[..k + 1]) == (if IsCounted(polls[0].attempt) then 1 else 0) + CountedFailures(polls[1..][..k]) by {
      assert polls[..k + 1][1..] == polls[1..][..k];
    }
    forall j | 1 <= j <= k + 1
      ensures SameId(polls[j], cur)
    {
      assert polls[j] == polls[1..][j - 1];
    }
  }

  /** Three counted failures in a row make next_video give up at the next turn that
      still sees the old id. */
  lemma NextVideoGivesUpAfterThree(cur: string, url: string, a: Attempt, b: Attempt, c: Attempt, rest: seq<Poll>)
    requires GetVideoId(url) == Ok(cur)
    requires IsCounted(a) && IsCounted(b) && IsCounted(c)
    ensures NextVideoOutcome(cur, [Poll(url, a), Poll(url, b), Poll(url, c), Poll(url, Clicked)] + rest, 0) == Some(Ok(false))
  {
    var p := [Poll(url, a), Poll(url, b), Poll(url, c), Poll(url, Clicked)] + rest;
    assert NextVideoOutcome(cur, p, 0) == NextVideoOutcome(cur, p[1..], 1);
    assert NextVideoOutcome(cur, p[1..], 1) == NextVideoOutcome(cur, p[2..], 2) by {
      assert p[1..][1..] == p[2..];
    }
    assert NextVideoOutcome(cur, p[2..], 2) == NextVideoOutcome(cur, p[3..], 3) by {
      assert p[2..][1..] == p[3..];
    }
  }

  /** A retry on a non-interactable button changes nothing but the turn taken. */
  lemma NotInteractableNotCounted(cur: string, url: string, rest: seq<Poll>, count: nat)
    requires GetVideoId(url) == Ok(cur) && count < 3
    ensures NextVideoOutcome(cur, [Poll(url, NotInteractable)] + rest, count) == NextVideoOutcome(cur, rest, count)
  {
    assert ([Poll(url, NotInteractable)] + rest)[1..] == rest;
  }
}
