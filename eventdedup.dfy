/** The de-duplication of Slack event callbacks in `slack_events`: the
    module-level set `processed_events` (app.py lines 27-28), the check and
    recording at lines 131-137, and the dispatch that follows (lines
    139-160). */
module EventDedup {
  import UrlScan

  /** Above this many ids the whole set is cleared (app.py line 136). */
  const MaxProcessedEvents: nat := 1000

  /** The set of processed ids after a callback that carries `id`: unchanged
      for a duplicate; otherwise `id` is added, and the set is emptied when
      that takes it over the limit. */
  function Recorded(seen: set<string>, id: string): set<string>
  {
    if id in seen then seen
    else if |seen + {id}| > MaxProcessedEvents then {}
    else seen + {id}
  }

  /** The set after a run of callbacks carrying `ids`, in order. */
  function Replayed(seen: set<string>, ids: seq<string>): set<string>
    decreases |ids|
  {
    if ids == [] then seen
    else Recorded(Replayed(seen, ids[..|ids| - 1]), ids[|ids| - 1])
  }

  /** The fields of a Slack `event` object that the handler reads. `botId`
      and `text` are "" when absent, and `fileCount` is the length of
      `files`. */
  datatype SlackEvent = SlackEvent(kind: string, botId: string, fileCount: nat, text: string)

  /** What `slack_events` does with an event callback. */
  datatype Dispatch =
    | Duplicate
    | LinkShared
    | BotMessage
      /** `handle_file_shared` runs when `withFiles`, and
          `handle_urls_in_message` runs when `urls` is not empty. */
    | Message(withFiles: bool, urls: seq<string>)
    | Unhandled

  /** The dispatch of a callback whose id was not seen before
      (app.py lines 139-160). */
  function Route(event: SlackEvent): Dispatch
  {
    if event.kind == "link_shared" then LinkShared
    else if event.kind == "message" then
      if event.botId != "" then BotMessage
      else Message(event.fileCount > 0, UrlScan.Urls(event.text))
    else Unhandled
  }

  /** `processed_events`, with the part of `slack_events` that reads and
      updates it. */
  class EventCache {
    var processed: set<string>

    ghost predicate Valid()
      reads this
    {
      |processed| <= MaxProcessedEvents
    }

    constructor ()
      ensures Valid() && processed == {}
    {
      processed := {};
    }

    /** The duplicate check and recording, app.py lines 131-137. A
        duplicate leaves the set as it was. A new id is added, and the
        whole set, that id included, is cleared when its size then exceeds
        the limit. */
    method HandleEventId(id: string) returns (isDuplicate: bool)
      requires Valid()
      modifies this
      ensures Valid()
      ensures isDuplicate <==> id in old(processed)
      ensures processed == Recorded(old(processed), id)
    {
      if id in processed {
        return true;
      }
      processed := processed + {id};
      if |processed| > MaxProcessedEvents {
        processed := {};
      }
      return false;
    }

    /** The `event_callback` branch of `slack_events`. The id is recorded
        before the event is looked at, so the id of a bot message is
        remembered although no handler runs for it. */
    method OnEventCallback(eventId: string, event: SlackEvent) returns (d: Dispatch)
      requires Valid()
      modifies this
      ensures Valid()
      ensures processed == Recorded(old(processed), eventId)
      ensures d == (if eventId in old(processed) then Duplicate else Route(event))
      ensures d == BotMessage ==> eventId in processed || processed == {}
    {
      var isDuplicate := HandleEventId(eventId);
      if isDuplicate {
        return Duplicate;
      }
      if event.kind == "link_shared" {
        d := LinkShared;
      } else if event.kind == "message" {
        if event.botId != "" {
          return BotMessage;
        }
        var urls := UrlScan.ExtractUrls(event.text);
        d := Message(event.fileCount > 0, urls);
      } else {
        d := Unhandled;
      }
    }
  }

  // ---------------------------------------------------------------------
  // What the cache promises
  // ---------------------------------------------------------------------

  lemma AddNewId(seen: set<string>, id: string)
    requires id !in seen
    ensures |seen + {id}| == |seen| + 1
  {
    assert (seen + {id}) - {id} == seen;
  }

  /** The set never holds more than the limit after a callback. It is
      emptied exactly when a new id arrives while it is full. */
  lemma RecordedBounded(seen: set<string>, id: string)
    requires |seen| <= MaxProcessedEvents
    ensures |Recorded(seen, id)| <= MaxProcessedEvents
    ensures Recorded(seen, id) == {} <==> id !in seen && |seen| == MaxProcessedEvents
    ensures id !in seen && |seen| < MaxProcessedEvents ==> Recorded(seen, id) == seen + {id}
  {
    if id !in seen {
      AddNewId(seen, id);
      assert id in seen + {id};
    }
  }

  /** The bound holds after any run of callbacks. */
  lemma {:induction false} ReplayedBounded(seen: set<string>, ids: seq<string>)
    requires |seen| <= MaxProcessedEvents
    ensures |Replayed(seen, ids)| <= MaxProcessedEvents
    decreases |ids|
  {
    if ids != [] {
      ReplayedBounded(seen, ids[..|ids| - 1]);
      RecordedBounded(Replayed(seen, ids[..|ids| - 1]), ids[|ids| - 1]);
    }
  }

  /** Once recorded, an id stays in the set until the set is cleared. */
  lemma {:induction false} StaysRecorded(seen: set<string>, ids: seq<string>, i: nat, k: nat)
    requires i < k <= |ids|
    requires forall m :: i < m <= k ==> Replayed(seen, ids[..m]) != {}
    ensures ids[i] in Replayed(seen, ids[..k])
    decreases k
  {
    var before := Replayed(seen, ids[..k - 1]);
    assert ids[..k][..k - 1] == ids[..k - 1];
    assert Replayed(seen, ids[..k]) == Recorded(before, ids[k - 1]);
    if k - 1 > i {
      StaysRecorded(seen, ids, i, k - 1);
    }
  }

  /** An id delivered again is dropped as a duplicate unless the set was
      cleared in between. */
  lemma RedeliveryIsDuplicate(seen: set<string>, ids: seq<string>, i: nat, j: nat)
    requires i < j < |ids| && ids[i] == ids[j]
    requires forall k :: i < k <= j ==> Replayed(seen, ids[..k]) != {}
    ensures Recorded(Replayed(seen, ids[..j]), ids[j]) == Replayed(seen, ids[..j])
  {
    StaysRecorded(seen, ids, i, j);
  }

  /** A bot message with a new id runs no handler, yet its id is
      remembered unless the set was full. */
  lemma BotMessageRemembered(seen: set<string>, id: string, event: SlackEvent)
    requires |seen| < MaxProcessedEvents && id !in seen
    requires event.kind == "message" && event.botId != ""
    ensures Route(event) == BotMessage && id in Recorded(seen, id)
  {
    RecordedBounded(seen, id);
  }
}
