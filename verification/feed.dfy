/**
 * The pure parts of the feed page: merging an updated post into the list,
 * prepending a created one, the fallback chains that derive a post's like
 * count, liked flag and owner name, the likes line, the relative time of a
 * post, and the guards of the post and comment composers.
 */
module Feed {
  import opened Wrappers
  import opened Text
  import opened JsValue

  /** A post as the API returns it: a JSON object. */
  type Post = map<string, Js>

  /** `p.id === updated.id`, with a missing id read as `undefined`. */
  function SameId(p: Post, updated: Post): (b: bool)
    ensures b ==> Field(p, "id") == Field(updated, "id")
    ensures "id" !in p && "id" !in updated ==> b
    ensures Field(p, "id") == Field(updated, "id") && (Field(p, "id").Num? || Field(p, "id").Str?) ==> b
    ensures Field(p, "id").Arr? || Field(p, "id").Obj? ==> !b
  {
    StrictEquals(Field(p, "id"), Field(updated, "id"))
  }

  /** `{ ...p, ...updated }`: the fields of both, those of `updated` winning. */
  function Spread(p: Post, updated: Post): (r: Post)
    ensures r.Keys == p.Keys + updated.Keys
    ensures forall k :: k in updated ==> r[k] == updated[k]
    ensures forall k :: k in p && k !in updated ==> r[k] == p[k]
  {
    p + updated
  }

  /**
   * `handlePostUpdated`: every post with the updated post's id takes over its
   * fields; the others, the length and the order are unchanged.
   */
  function HandlePostUpdated(prev: seq<Post>, updated: Post): (r: seq<Post>)
    ensures |r| == |prev|
    ensures forall i :: 0 <= i < |prev| && !SameId(prev[i], updated) ==> r[i] == prev[i]
    ensures forall i :: 0 <= i < |prev| && SameId(prev[i], updated) ==>
      && r[i].Keys == prev[i].Keys + updated.Keys
      && (forall k :: k in updated ==> r[i][k] == updated[k])
      && (forall k :: k in prev[i] && k !in updated ==> r[i][k] == prev[i][k])
  {
    seq(|prev|, i requires 0 <= i < |prev| => if SameId(prev[i], updated) then Spread(prev[i], updated) else prev[i])
  }

  /** Merging keeps every post's id, so the sequence of ids is unchanged. */
  lemma HandlePostUpdatedKeepsIds(prev: seq<Post>, updated: Post)
    ensures forall i :: 0 <= i < |prev| ==> Field(HandlePostUpdated(prev, updated)[i], "id") == Field(prev[i], "id")
  {
  }

  /** Delivering the same update twice has the effect of delivering it once. */
  lemma HandlePostUpdatedIdempotent(prev: seq<Post>, updated: Post)
    ensures HandlePostUpdated(HandlePostUpdated(prev, updated), updated) == HandlePostUpdated(prev, updated)
  {
    var once := HandlePostUpdated(prev, updated);
    forall i | 0 <= i < |prev| ensures HandlePostUpdated(once, updated)[i] == once[i] {
      if SameId(once[i], updated) {
        assert Spread(once[i], updated) == once[i];
      }
    }
  }

  /** `handlePostCreated`: the new post first, then the previous list. */
  function HandlePostCreated(prev: seq<Post>, created: Post): (r: seq<Post>)
    ensures |r| == |prev| + 1 && r[0] == created && r[1..] == prev
  {
    [created] + prev
  }

  /** An update reaches a post whether it arrives before or after the post is shown. */
  lemma UpdateAfterCreate(prev: seq<Post>, created: Post, updated: Post)
    ensures HandlePostUpdated(HandlePostCreated(prev, created), updated) ==
      HandlePostCreated(HandlePostUpdated(prev, updated), if SameId(created, updated) then Spread(created, updated) else created)
  {
    var l := HandlePostUpdated(HandlePostCreated(prev, created), updated);
    var r := HandlePostCreated(HandlePostUpdated(prev, updated), if SameId(created, updated) then Spread(created, updated) else created);
    assert |l| == |r|;
    forall i | 0 <= i < |l| ensures l[i] == r[i] {
      if i > 0 {
        assert HandlePostCreated(prev, created)[i] == prev[i - 1];
      }
    }
  }

  /** `post.likesCount ?? post.likedBy?.length ?? post.likeCount ?? 0` */
  function LikeCount(post: Post): (r: Js)
    ensures !Nullish(r)
    ensures !Nullish(Field(post, "likesCount")) ==> r == post["likesCount"]
    ensures Nullish(Field(post, "likesCount")) && !Nullish(OptProp(Field(post, "likedBy"), "length")) ==>
      r == OptProp(Field(post, "likedBy"), "length")
    ensures Nullish(Field(post, "likesCount")) && Nullish(OptProp(Field(post, "likedBy"), "length")) && !Nullish(Field(post, "likeCount")) ==>
      r == post["likeCount"]
    ensures Nullish(Field(post, "likesCount")) && Nullish(OptProp(Field(post, "likedBy"), "length")) && Nullish(Field(post, "likeCount")) ==>
      r == Num(0)
  {
    Coalesce(Field(post, "likesCount"), Coalesce(OptProp(Field(post, "likedBy"), "length"), Coalesce(Field(post, "likeCount"), Num(0))))
  }

  /** An explicit zero is a count: it is not replaced by a later source. */
  lemma LikeCountKeepsZero(post: Post)
    requires Field(post, "likesCount") == Num(0)
    ensures LikeCount(post) == Num(0)
  {
  }

  /** With only an array of likers, the count is its length. */
  lemma LikeCountFromLikers(post: Post, likers: seq<Js>)
    requires "likesCount" !in post
    requires Field(post, "likedBy") == Arr(likers)
    ensures LikeCount(post) == Num(|likers|)
  {
  }

  /** A call of a method the value does not have. */
  datatype JsError = TypeError

  /**
   * `likedBy?.includes(id)`: array membership under `===`, substring search
   * for a string (the argument converted with `String`), `undefined` when
   * there is no list, and a `TypeError` for values without `includes`.
   */
  function Includes(likedBy: Js, id: Js): (r: Result<Js, JsError>)
    ensures likedBy.Arr? || likedBy.Str? ==> r.Success? && r.value.Bool?
    ensures likedBy.Arr? ==> (r.value.b <==> exists i :: 0 <= i < |likedBy.items| && StrictEquals(likedBy.items[i], id))
    ensures likedBy.Str? ==> r.value.b == Occurs(likedBy.s, ToJsString(id))
    ensures Nullish(likedBy) ==> r == Success(Undefined)
    ensures likedBy.Bool? || likedBy.Num? || likedBy.Obj? ==> r == Failure(TypeError)
  {
    match likedBy
    case Undefined => Success(Undefined)
    case Null => Success(Undefined)
    case Arr(xs) => Success(Bool(exists i :: 0 <= i < |xs| && StrictEquals(xs[i], id)))
    case Str(s) => Success(Bool(Contains(s, ToJsString(id))))
    case _ => Failure(TypeError)
  }

  /** `post.isLikedByCurrentUser ?? post.likedBy?.includes(user?.id) ?? false` */
  function IsLiked(post: Post, user: Js): (r: Result<Js, JsError>)
    ensures !Nullish(Field(post, "isLikedByCurrentUser")) ==> r == Success(post["isLikedByCurrentUser"])
    ensures r.Success? ==> !Nullish(r.value)
    ensures Nullish(Field(post, "isLikedByCurrentUser")) && Nullish(Field(post, "likedBy")) ==> r == Success(Bool(false))
    ensures Nullish(Field(post, "isLikedByCurrentUser")) && Field(post, "likedBy").Arr? ==>
      && r.Success? && r.value.Bool?
      && (r.value.b <==> exists i :: 0 <= i < |post["likedBy"].items| && StrictEquals(post["likedBy"].items[i], OptProp(user, "id")))
    ensures Nullish(Field(post, "isLikedByCurrentUser")) && Field(post, "likedBy").Str? ==>
      r == Success(Bool(Occurs(post["likedBy"].s, ToJsString(OptProp(user, "id")))))
    ensures Nullish(Field(post, "isLikedByCurrentUser")) && (Field(post, "likedBy").Bool? || Field(post, "likedBy").Num? || Field(post, "likedBy").Obj?) ==>
      r == Failure(TypeError)
  {
    var flag := Field(post, "isLikedByCurrentUser");
    if !Nullish(flag) then Success(flag)
    else
      var found :- Includes(Field(post, "likedBy"), OptProp(user, "id"));
      Success(Coalesce(found, Bool(false)))
  }

  /** A signed-in user whose id is listed among the likers sees the post as liked. */
  lemma ListedUserLikes(post: Post, user: Post, likers: seq<Js>, i: nat)
    requires "isLikedByCurrentUser" !in post
    requires Field(post, "likedBy") == Arr(likers)
    requires "id" in user && user["id"].Num?
    requires i < |likers| && likers[i] == user["id"]
    ensures IsLiked(post, Obj(user)) == Success(Bool(true))
  {
    assert StrictEquals(likers[i], OptProp(Obj(user), "id"));
  }

  /** `post.email?.split?.("@")[0]`: only strings have `split`. */
  function EmailPrefix(email: Js): (r: Js)
    ensures email.Str? ==> r.Str? && BeforeFirst(email.s, '@', r.s)
    ensures !email.Str? ==> r == Undefined
  {
    match email
    case Str(s) =>
      SplitHead(s, '@');
      Str(Split(s, '@')[0])
    case _ => Undefined
  }

  /** `post.userName || post.displayName || <email prefix> || "star"` */
  function OwnerName(post: Post): (r: Js)
    ensures Truthy(r)
    ensures Truthy(Field(post, "userName")) ==> r == post["userName"]
    ensures !Truthy(Field(post, "userName")) && Truthy(Field(post, "displayName")) ==> r == post["displayName"]
    ensures !Truthy(Field(post, "userName")) && !Truthy(Field(post, "displayName")) ==>
      r == (if Truthy(EmailPrefix(Field(post, "email"))) then EmailPrefix(Field(post, "email")) else Str("star"))
  {
    Either(Field(post, "userName"), Either(Field(post, "displayName"), Either(EmailPrefix(Field(post, "email")), Str("star"))))
  }

  /** A post that only carries an email is attributed to the part before the `@`. */
  lemma OwnerFromEmail(post: Post, local: string, domain: string)
    requires !Truthy(Field(post, "userName")) && !Truthy(Field(post, "displayName"))
    requires Field(post, "email") == Str(local + "@" + domain)
    requires local != "" && '@' !in local
    ensures OwnerName(post) == Str(local)
  {
    SplitAppend(local, domain, '@');
    assert local + "@" + domain == local + ['@'] + domain;
    SplitHead(local, '@');
  }

  /** The likes line: shown for a positive count, with the plural for more than one. */
  function LikesLabel(count: int): (r: Option<string>)
    ensures r.Some? <==> count > 0
    ensures r.Some? ==> r.value == IntToString(count) + (if count > 1 then " curtidas" else " curtida")
  {
    if count > 0 then Some(IntToString(count) + " curtida" + (if count > 1 then "s" else "")) else None
  }

  /** The count can be read back from the shown: it is the text before the first space. */
  lemma LikesLabelCount(count: int)
    requires count > 0
    ensures var shown := LikesLabel(count).value;
      IsIntText(Split(shown, ' ')[0]) && IntValue(Split(shown, ' ')[0]) == count
  {
    var digits := IntToString(count);
    var shown := LikesLabel(count).value;
    var tail := if count > 1 then "curtidas" else "curtida";
    assert shown == digits + [' '] + tail;
    assert forall i :: 0 <= i < |digits| ==> IsDigit(digits[i]);
    SplitAppend(digits, tail, ' ');
    SplitHead(digits, ' ');
    IntToStringRoundTrip(count);
  }

  /* ---------------------------------------------------------------------
   * Relative time
   * ------------------------------------------------------------------- */

  /**
   * The timestamp of a post as `formatDate` distinguishes it: falsy; a
   * date (a `Date`, a parsable string or a `toDate()` result) at a number
   * of milliseconds; a string that parses to an invalid date; anything
   * else, which is read as the current time.
   */
  datatype Stamp = Falsy | Instant(ms: int) | InvalidDate | Other

  /** What is shown: "agora", "N min", "N h", "N d", or a formatted date. */
  datatype Age = JustNow | Minutes(n: int) | Hours(n: int) | Days(n: int) | Absolute(ms: int)

  const MsPerMinute := 60_000
  const MsPerHour := 3_600_000
  const MsPerDay := 86_400_000

  /** Whole hours from milliseconds, through whole minutes. */
  lemma MinutesToHours(diff: int)
    ensures (diff / 60000) / 60 == diff / 3_600_000
  {
    var q := diff / 60000;
    assert diff == q * 60000 + diff % 60000;
    var h := q / 60;
    assert q == h * 60 + q % 60;
    assert diff == h * 3_600_000 + (q % 60) * 60000 + diff % 60000;
  }

  /** Whole days from milliseconds, through whole hours. */
  lemma HoursToDays(diff: int)
    ensures (diff / 3_600_000) / 24 == diff / 86_400_000
  {
    var q := diff / 3_600_000;
    assert diff == q * 3_600_000 + diff % 3_600_000;
    var d := q / 24;
    assert q == d * 24 + q % 24;
    assert diff == d * 86_400_000 + (q % 24) * 3_600_000 + diff % 3_600_000;
  }

  /** The bucket of a date `diff` milliseconds in the past (negative: in the future). */
  function AgeOf(diff: int, ms: int): (r: Age)
    ensures r == JustNow <==> diff < MsPerMinute
    ensures r.Minutes? <==> MsPerMinute <= diff < MsPerHour
    ensures r.Hours? <==> MsPerHour <= diff < MsPerDay
    ensures r.Days? <==> MsPerDay <= diff < 7 * MsPerDay
    ensures r.Absolute? <==> 7 * MsPerDay <= diff
    ensures r.Minutes? ==> r.n == diff / MsPerMinute && 1 <= r.n < 60
    ensures r.Hours? ==> r.n == diff / MsPerHour && 1 <= r.n < 24
    ensures r.Days? ==> r.n == diff / MsPerDay && 1 <= r.n < 7
    ensures r.Absolute? ==> r.ms == ms
  {
    var mins := diff / 60000;
    MinutesToHours(diff);
    HoursToDays(diff);
    if mins < 1 then JustNow
    else if mins < 60 then Minutes(mins)
    else
      var hrs := mins / 60;
      if hrs < 24 then Hours(hrs)
      else
        var days := hrs / 24;
        if days < 7 then Days(days)
        else Absolute(ms)
  }

  /**
   * `formatDate(ts)` at time `now`. An invalid date makes the final
   * formatter throw, and the error is answered with "agora".
   */
  function FormatDate(ts: Stamp, now: int): (r: Age)
    ensures ts.Falsy? || ts.InvalidDate? || ts.Other? ==> r == JustNow
    ensures ts.Instant? ==> r == AgeOf(now - ts.ms, ts.ms)
  {
    match ts
    case Falsy => JustNow
    case Instant(ms) => AgeOf(now - ms, ms)
    case InvalidDate => JustNow
    case Other => AgeOf(now - now, now)
  }

  /** The text shown; the locale formatter of `Intl.DateTimeFormat` is passed in. */
  function AgeText(a: Age, formatDay: int -> string): (r: string)
    ensures a.JustNow? ==> r == "agora"
    ensures a.Minutes? ==> ShowsCount(r, a.n, " min")
    ensures a.Hours? ==> ShowsCount(r, a.n, " h")
    ensures a.Days? ==> ShowsCount(r, a.n, " d")
    ensures a.Absolute? ==> r == formatDay(a.ms)
  {
    match a
    case JustNow => "agora"
    case Minutes(n) => CountText(n, " min")
    case Hours(n) => CountText(n, " h")
    case Days(n) => CountText(n, " d")
    case Absolute(ms) => formatDay(ms)
  }

  /** Coarser buckets rank higher. */
  function Rank(a: Age): nat {
    match a
    case JustNow => 0
    case Minutes(_) => 1
    case Hours(_) => 2
    case Days(_) => 3
    case Absolute(_) => 4
  }

  /** An older post never shows a finer bucket or a smaller number than a newer one. */
  lemma FormatDateMonotonic(t1: int, t2: int, now: int)
    requires t1 <= t2
    ensures var a1, a2 := FormatDate(Instant(t1), now), FormatDate(Instant(t2), now);
      && Rank(a1) >= Rank(a2)
      && (Rank(a1) == Rank(a2) && (a1.Minutes? || a1.Hours? || a1.Days?) ==> a1.n >= a2.n)
  {
    var d1, d2 := now - t1, now - t2;
    assert d1 >= d2;
    assert d1 / MsPerMinute >= d2 / MsPerMinute;
    assert d1 / MsPerHour >= d2 / MsPerHour;
    assert d1 / MsPerDay >= d2 / MsPerDay;
  }

  /* ---------------------------------------------------------------------
   * Composer guards
   * ------------------------------------------------------------------- */

  const LoginAgain := "Faça login novamente."
  const NothingToPublish := "Escreva algo ou envie uma mídia."

  /** What `handlePublish` does: alert, upload the file with the caption, or post the caption alone. */
  datatype Publish = Alert(message: string) | Upload(caption: string, userId: Js) | PostText(caption: string, userId: Js)

  /** `caption.trim()` */
  function JsTrim(s: string): (t: string)
    ensures SpaceAround(s, t, JsWhiteSpace)
    ensures NoOuterSpace(t, JsWhiteSpace)
    ensures t == [] <==> AllSpace(s, JsWhiteSpace)
  {
    Trim(s, JsWhiteSpace)
  }

  function HandlePublish(user: Js, hasFile: bool, caption: string): (r: Publish)
    ensures !Truthy(user) ==> r == Alert(LoginAgain)
    ensures Truthy(user) && !hasFile && AllSpace(caption, JsWhiteSpace) ==> r == Alert(NothingToPublish)
    ensures Truthy(user) && hasFile ==> r == Upload(JsTrim(caption), Prop(user, "id"))
    ensures Truthy(user) && !hasFile && !AllSpace(caption, JsWhiteSpace) ==>
      r == PostText(JsTrim(caption), Prop(user, "id")) && r.caption != ""
  {
    if !Truthy(user) then Alert(LoginAgain)
    else if !hasFile && JsTrim(caption) == "" then Alert(NothingToPublish)
    else if hasFile then Upload(JsTrim(caption), Prop(user, "id"))
    else PostText(JsTrim(caption), Prop(user, "id"))
  }

  /** Whatever is sent has no white space at either end. */
  lemma PublishedCaptionTrimmed(user: Js, hasFile: bool, caption: string)
    ensures var r := HandlePublish(user, hasFile, caption);
      !r.Alert? ==> NoOuterSpace(r.caption, JsWhiteSpace)
  {
    var r := HandlePublish(user, hasFile, caption);
    if !r.Alert? {
      assert r.caption == JsTrim(caption);
    }
  }

  /** What the comment form's `submit` does: nothing, or send the trimmed text. */
  datatype Comment = Skip | Send(text: string, userId: Js)

  function SubmitComment(user: Js, text: string): (r: Comment)
    ensures r.Skip? <==> AllSpace(text, JsWhiteSpace)
    ensures r.Send? ==> r.text == JsTrim(text) && r.text != "" && r.userId == OptProp(user, "id")
  {
    if JsTrim(text) == "" then Skip else Send(JsTrim(text), OptProp(user, "id"))
  }

  /** Sending the trimmed text again would send the same text. */
  lemma CommentTrimStable(user: Js, text: string)
    requires SubmitComment(user, text).Send?
    ensures SubmitComment(user, SubmitComment(user, text).text) == SubmitComment(user, text)
  {
    TrimIdempotent(text, JsWhiteSpace);
  }
}
