/** The play queue of the YouTube redemption, kept in the non-persisted
    global variable `youtube_video_queue` as `user:videoId:flag` entries joined
    by `|`, where the flag is `1` for a YouTube Music link and `0` otherwise;
    and the redemption that either plays a link at once or queues it. */
module PlayQueue {
  import opened Strings
  import opened YouTube

  const EntrySeparator: char := '|'
  const FieldSeparator: char := ':'

  /** One queued redemption. */
  datatype Entry = Entry(user: string, videoId: string, isMusic: bool)

  /** `$"{user}:{videoId}:{musicFlag}"`. */
  function FormatEntry(e: Entry): (item: string)
    ensures FieldSeparator in item
  {
    var item := e.user + [FieldSeparator] + e.videoId + [FieldSeparator] + (if e.isMusic then "1" else "0");
    assert item[|e.user|] == FieldSeparator;
    item
  }

  /** `nextItem.Split(':')` read back as user, id and flag; None when there is
      no second part, where `parts[1]` throws. */
  function ParseEntry(item: string): (e: Option<Entry>)
    ensures e.None? <==> FieldSeparator !in item
    ensures e.Some? ==> FieldSeparator !in e.value.user && FieldSeparator !in e.value.videoId
  {
    var parts := Split(item, FieldSeparator);
    SplitCount(item, FieldSeparator);
    if |parts| < 2 then None
    else Some(Entry(parts[0], parts[1], |parts| > 2 && parts[2] == "1"))
  }

  /** `Split` cuts text in two or more pieces exactly when the separator
      occurs in it. */
  lemma SplitCount(s: string, d: char)
    ensures |Split(s, d)| == 1 <==> d !in s
  {
    if d !in s {
      NotFoundIfNoChar(s, d);
    } else if Find(s, [d], 0).None? {
      NoCharIfNotFound(s, d);
    }
  }

  /** An entry formatted from fields without `:` reads back as the same user,
      the same id and the same music flag. */
  lemma EntryRoundTrip(e: Entry)
    requires FieldSeparator !in e.user && FieldSeparator !in e.videoId
    ensures ParseEntry(FormatEntry(e)) == Some(e)
  {
    var flag := if e.isMusic then "1" else "0";
    var fields := [e.user, e.videoId, flag];
    assert Join(fields, FieldSeparator) == FormatEntry(e) by {
      assert Join(fields[2..], FieldSeparator) == flag;
      assert Join(fields[1..], FieldSeparator) == e.videoId + [FieldSeparator] + flag;
    }
    SplitJoin(fields, FieldSeparator);
  }

  /** An id answered by `ExtractVideoId` never holds a separator, so it
      round-trips through the queue. */
  lemma VideoIdHasNoSeparators(url: string)
    requires ExtractVideoId(url).Some?
    ensures FieldSeparator !in ExtractVideoId(url).value
    ensures EntrySeparator !in ExtractVideoId(url).value
  {
    var id := ExtractVideoId(url).value;
    forall i | 0 <= i < |id| ensures id[i] != FieldSeparator && id[i] != EntrySeparator {
      if i < 11 {
        assert id[..11][i] == id[i];
      }
    }
  }

  /** The entries a stored queue holds: none for the empty (or unset) variable,
      otherwise the pieces of `queue.Split('|')`. */
  function EntriesOf(q: string): (items: seq<string>)
    ensures q == "" <==> items == []
    ensures forall i :: 0 <= i < |items| ==> EntrySeparator !in items[i]
    ensures q != "" ==> Join(items, EntrySeparator) == q
  {
    if q == "" then [] else JoinSplit(q, EntrySeparator); Split(q, EntrySeparator)
  }

  /** Every entry of the stored queue is non-empty, as every entry
      `AddToQueue` writes is. */
  predicate WellFormed(q: string)
  {
    forall i :: 0 <= i < |EntriesOf(q)| ==> EntriesOf(q)[i] != ""
  }

  /** The queue text after `AddToQueue` appends `item`. */
  function Pushed(q: string, item: string): (r: string)
  {
    if q == "" then item else q + [EntrySeparator] + item
  }

  /** The queue text after the first entry is taken: `""` for a single entry,
      otherwise `string.Join("|", queueItems, 1, queueItems.Length - 1)`. */
  function Rest(q: string): (r: string)
  {
    var items := Split(q, EntrySeparator);
    if |items| == 1 then "" else Join(items[1..], EntrySeparator)
  }

  lemma {:induction false} JoinAppend(xs: seq<string>, x: string, d: char)
    requires |xs| >= 1
    ensures Join(xs + [x], d) == Join(xs, d) + [d] + x
    decreases |xs|
  {
    if |xs| > 1 {
      assert (xs + [x])[1..] == xs[1..] + [x];
      JoinAppend(xs[1..], x, d);
    }
  }

  lemma JoinStartsWithFirst(xs: seq<string>, d: char)
    requires |xs| >= 1
    ensures |Join(xs, d)| >= |xs[0]|
  {
  }

  /** Appending a non-empty entry without `|` adds exactly that entry at the
      end and keeps the others in order. */
  lemma PushedEntries(q: string, item: string)
    requires item != "" && EntrySeparator !in item
    ensures EntriesOf(Pushed(q, item)) == EntriesOf(q) + [item]
  {
    if q == "" {
      NotFoundIfNoChar(item, EntrySeparator);
    } else {
      var items := EntriesOf(q);
      JoinAppend(items, item, EntrySeparator);
      SplitJoin(items + [item], EntrySeparator);
    }
  }

  /** Taking the first entry of a well-formed queue leaves exactly the later
      entries, in order. */
  lemma RestEntries(q: string)
    requires q != "" && WellFormed(q)
    ensures EntriesOf(Rest(q)) == EntriesOf(q)[1..]
  {
    var items := EntriesOf(q);
    if |items| > 1 {
      assert items[1..][0] == items[1] != "";
      JoinStartsWithFirst(items[1..], EntrySeparator);
      SplitJoin(items[1..], EntrySeparator);
    }
  }

  /** Both queue updates keep every entry non-empty. */
  lemma PushedWellFormed(q: string, item: string)
    requires WellFormed(q) && item != "" && EntrySeparator !in item
    ensures WellFormed(Pushed(q, item))
  {
    PushedEntries(q, item);
    var items := EntriesOf(Pushed(q, item));
    forall i | 0 <= i < |items| ensures items[i] != "" {
      if i < |EntriesOf(q)| {
        assert items[i] == EntriesOf(q)[i];
      }
    }
  }

  lemma RestWellFormed(q: string)
    requires q != "" && WellFormed(q)
    ensures WellFormed(Rest(q))
  {
    RestEntries(q);
    var items := EntriesOf(Rest(q));
    forall i | 0 <= i < |items| ensures items[i] != "" {
      assert items[i] == EntriesOf(q)[i + 1];
    }
  }

  /** First in, first out: behind a non-empty queue, a pushed entry waits its
      turn, and the head and the queue left behind are as before, with the new
      entry at the end; on an empty queue it is taken at once and leaves `""`. */
  lemma FirstInFirstOut(q: string, item: string)
    requires WellFormed(q) && item != "" && EntrySeparator !in item
    ensures q == "" ==> EntriesOf(Pushed(q, item))[0] == item && Rest(Pushed(q, item)) == ""
    ensures q != "" ==> EntriesOf(Pushed(q, item))[0] == EntriesOf(q)[0]
    ensures q != "" ==> EntriesOf(Rest(Pushed(q, item))) == EntriesOf(Rest(q)) + [item]
  {
    if q == "" {
      PushOntoEmpty(item);
    } else {
      PushBehind(q, item);
    }
  }

  lemma PushOntoEmpty(item: string)
    requires item != "" && EntrySeparator !in item
    ensures EntriesOf(Pushed("", item))[0] == item && Rest(Pushed("", item)) == ""
  {
    PushedEntries("", item);
    assert EntriesOf(Pushed("", item)) == [item];
  }

  lemma PushBehind(q: string, item: string)
    requires WellFormed(q) && q != "" && item != "" && EntrySeparator !in item
    ensures EntriesOf(Pushed(q, item))[0] == EntriesOf(q)[0]
    ensures EntriesOf(Rest(Pushed(q, item))) == EntriesOf(Rest(q)) + [item]
  {
    var e := EntriesOf(q);
    PushedEntries(q, item);
    assert (e + [item])[0] == e[0];
    PushedRest(q, item);
  }

  lemma PushedRest(q: string, item: string)
    requires WellFormed(q) && q != "" && item != "" && EntrySeparator !in item
    ensures EntriesOf(Rest(Pushed(q, item))) == EntriesOf(Rest(q)) + [item]
  {
    PushedEntries(q, item);
    PushedWellFormed(q, item);
    RestOfLonger(Pushed(q, item), q, item);
  }

  /** Queues that differ by one entry at the end still do once the first
      entry is taken from both. */
  lemma RestOfLonger(p: string, q: string, item: string)
    requires q != "" && WellFormed(p) && WellFormed(q)
    requires EntriesOf(p) == EntriesOf(q) + [item]
    ensures EntriesOf(Rest(p)) == EntriesOf(Rest(q)) + [item]
  {
    var e := EntriesOf(q);
    RestEntries(p);
    RestEntries(q);
    assert (e + [item])[1..] == e[1..] + [item];
  }

  /** What taking the next video from the queue gives `ProcessQueue`. */
  datatype Popped =
    | Empty
    | Malformed
    | Next(entry: Entry, remaining: int, seconds: int)

  /** The stored queue. */
  class Queue {
    var queue: string

    /** The queue variable as first read: an unset variable reads as `""`. */
    constructor (stored: string)
      ensures queue == stored
    {
      queue := stored;
    }

    function Entries(): seq<string>
      reads this
    {
      EntriesOf(queue)
    }

    /** `AddToQueue`: the entry becomes the whole queue when the queue is
        empty, and is appended after a `|` otherwise. */
    method AddToQueue(user: string, videoId: string, isMusic: bool)
      modifies this
      ensures queue == Pushed(old(queue), FormatEntry(Entry(user, videoId, isMusic)))
      ensures EntrySeparator !in user && EntrySeparator !in videoId ==>
        Entries() == old(Entries()) + [FormatEntry(Entry(user, videoId, isMusic))]
      ensures EntrySeparator !in user && EntrySeparator !in videoId && WellFormed(old(queue)) ==>
        WellFormed(queue)
    {
      var musicFlag := if isMusic then "1" else "0";
      var item := user + [FieldSeparator] + videoId + [FieldSeparator] + musicFlag;
      assert item == FormatEntry(Entry(user, videoId, isMusic));
      assert item[|user|] == FieldSeparator;
      if EntrySeparator !in user && EntrySeparator !in videoId {
        assert EntrySeparator !in item;
        PushedEntries(queue, item);
        if WellFormed(queue) {
          PushedWellFormed(queue, item);
        }
      }
      if queue == "" {
        queue := item;
      } else {
        queue := queue + [EntrySeparator] + item;
      }
    }

    /** `GetQueueLength`: 0 for the empty queue, the number of `|`-separated
        pieces otherwise. */
    method GetQueueLength() returns (n: int)
      ensures n == |Entries()|
      ensures n == 0 <==> queue == ""
    {
      if queue == "" {
        return 0;
      }
      n := |Split(queue, EntrySeparator)|;
    }

    /** The start of `ProcessQueue`: nothing when the queue is empty; otherwise
        the first entry is split into its fields (an entry without `:` makes
        `parts[1]` throw before the queue is written), removed from the queue,
        and played for `apiDuration` seconds, or for `fallback` when the API
        answered 0. */
    method PopNext(apiDuration: int, fallback: int) returns (p: Popped)
      modifies this
      ensures old(queue) == "" <==> p == Empty
      ensures p.Empty? || p.Malformed? ==> queue == old(queue)
      ensures p.Malformed? <==> old(queue) != "" && FieldSeparator !in old(Entries())[0]
      ensures p.Next? ==>
        Some(p.entry) == ParseEntry(old(Entries())[0])
        && queue == Rest(old(queue))
        && p.remaining == |old(Entries())| - 1
        && p.seconds == (if apiDuration == 0 then fallback else apiDuration)
      ensures p.Next? && WellFormed(old(queue)) ==> Entries() == old(Entries())[1..] && WellFormed(queue)
    {
      if queue == "" {
        return Empty;
      }
      var queueItems := Split(queue, EntrySeparator);
      var nextItem := queueItems[0];
      var parts := Split(nextItem, FieldSeparator);
      SplitCount(nextItem, FieldSeparator);
      if |parts| < 2 {
        return Malformed;
      }
      var user := parts[0];
      var videoId := parts[1];
      var isMusic := |parts| > 2 && parts[2] == "1";
      if WellFormed(queue) {
        RestEntries(queue);
        RestWellFormed(queue);
      }
      if |queueItems| == 1 {
        queue := "";
      } else {
        queue := Join(queueItems[1..], EntrySeparator);
      }
      var videoDuration := apiDuration;
      if videoDuration == 0 {
        videoDuration := fallback;
      }
      var remaining := |queueItems| - 1;
      p := Next(Entry(user, videoId, isMusic), remaining, videoDuration);
    }
  }

  /** How a channel-point redemption ends. */
  datatype Redemption =
    | MissingArgument
    | NoUrl
    | InvalidUrl
    | Queued(position: int)
    | TooLongToPlay(duration: int, max: int)
    | Playing(videoId: string, seconds: int, isMusic: bool)

  /** The URL the redemption reads: the trimmed `rawInput` when it is
      non-empty, else the trimmed `input0` when that is non-empty. */
  function RedeemedUrl(rawInput: Option<string>, input0: Option<string>): (url: Option<string>)
    ensures url.Some? <==> (rawInput.Some? && rawInput.value != "") || (input0.Some? && input0.value != "")
    ensures rawInput.Some? && rawInput.value != "" ==> url == Some(Trim(rawInput.value))
    ensures !(rawInput.Some? && rawInput.value != "") && url.Some? ==> url == Some(Trim(input0.value))
    ensures url.Some? ==> url.value == [] || !IsWhiteSpace(url.value[|url.value| - 1])
  {
    if rawInput.Some? && rawInput.value != "" then Some(Trim(rawInput.value))
    else if input0.Some? && input0.value != "" then Some(Trim(input0.value))
    else None
  }

  /** `Execute` of the redemption. `videoIsPlaying` is the verdict of the
      `current-video.json` age check, and `apiDuration` what
      `GetExactVideoDuration` answers (0 when it fails); both are inputs. */
  method Redeem(q: Queue, user: Option<string>, userId: Option<string>,
                rawInput: Option<string>, input0: Option<string>,
                configuredMax: int, videoIsPlaying: bool, apiDuration: int)
    returns (r: Redemption)
    modifies q
    ensures user.None? || userId.None? ==> r == MissingArgument && unchanged(q)
    ensures user.Some? && userId.Some? ==>
      var url := RedeemedUrl(rawInput, input0);
      if url.None? then r == NoUrl && unchanged(q)
      else
        var id := ExtractVideoId(url.value);
        var isMusic := IsMusicLink(url.value);
        if id.None? then r == InvalidUrl && unchanged(q)
        else if videoIsPlaying then
          q.queue == Pushed(old(q.queue), FormatEntry(Entry(user.value, id.value, isMusic)))
          && r == Queued(|q.Entries()|)
          && (EntrySeparator !in user.value ==> r.position == |old(q.Entries())| + 1)
        else
          unchanged(q)
          && match Admit(configuredMax, apiDuration)
             case TooLong(duration, max) => r == TooLongToPlay(duration, max)
             case PlayFor(seconds) => r == Playing(id.value, seconds, isMusic) && IsId(id.value)
  {
    if user.None? || userId.None? {
      return MissingArgument;
    }
    var url := RedeemedUrl(rawInput, input0);
    if url.None? {
      return NoUrl;
    }
    var youtubeUrl := url.value;
    var isMusic := IsMusicLink(youtubeUrl);
    var videoId := ExtractVideoId(youtubeUrl);
    if videoId.None? {
      return InvalidUrl;
    }
    TrimmedGivesId(youtubeUrl);
    if videoIsPlaying {
      VideoIdHasNoSeparators(youtubeUrl);
      q.AddToQueue(user.value, videoId.value, isMusic);
      var position := q.GetQueueLength();
      return Queued(position);
    }
    match Admit(configuredMax, apiDuration)
    case TooLong(duration, max) =>
      r := TooLongToPlay(duration, max);
    case PlayFor(seconds) =>
      r := Playing(videoId.value, seconds, isMusic);
  }
}
