/** The session record that every storage backend keeps, and the delta that one mutation applies. */
module Sessions {
  import opened Basics

  type Event = string

  /** One `mutate_session` call's payload: events to append, usage counters to add, an optional flag. */
  datatype Delta = Delta(events: seq<Event>, usage: map<string, int>, truncated: Option<bool>)

  datatype Session = Session(
    revision: int,
    events: seq<Event>,
    usage: map<string, int>,
    truncated: bool,
    updatedAt: int)

  function NewSession(events: seq<Event>, now: int): Session {
    Session(1, events, map[], false, now)
  }

  function Counter(usage: map<string, int>, key: string): int {
    if key in usage then usage[key] else 0
  }

  function AddUsage(usage: map<string, int>, more: map<string, int>): map<string, int> {
    map key | key in usage.Keys + more.Keys :: Counter(usage, key) + Counter(more, key)
  }

  /** The record after one accepted mutation. */
  function Apply(s: Session, d: Delta, now: int): Session {
    Session(s.revision + 1, s.events + d.events, AddUsage(s.usage, d.usage),
            d.truncated.GetOr(s.truncated), now)
  }
}
