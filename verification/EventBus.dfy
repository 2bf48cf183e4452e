/** aegis/internal/grpc/eventbus.go: the fan-out bus, with Publish taken as one step.
    The auth and the policy bus differ only in the payload and in the capacity of a channel, 64 and 16. */
module EventBus {

  const AUTH_CAPACITY: nat := 64

  datatype Event<+E> = Event(version: int, body: E)

  /** What a non-blocking send leaves in a buffered channel. */
  function Offer<T>(buf: seq<T>, x: T, capacity: nat): seq<T>
  {
    if |buf| < capacity then buf + [x] else buf
  }

  /** The bus as a value: the version counter and each subscriber's buffer. */
  datatype Bus<E> = Bus(version: int, bufs: map<string, seq<Event<E>>>)

  function Subscribed<E>(b: Bus<E>, id: string): Bus<E> { b.(bufs := b.bufs[id := []]) }

  function Unsubscribed<E>(b: Bus<E>, id: string): Bus<E> { b.(bufs := b.bufs - {id}) }

  function Published<E>(b: Bus<E>, body: E, capacity: nat): Bus<E>
  {
    Bus(b.version + 1, map id | id in b.bufs :: Offer(b.bufs[id], Event(b.version + 1, body), capacity))
  }

  /** What a publication does: the version goes up by one, and every subscriber with room gets the event, stamped with
      that version, behind what it has; nobody else notices. */
  lemma PublishedMeans<E>(b: Bus<E>, body: E, capacity: nat)
    ensures var b' := Published(b, body, capacity);
      && b'.version == b.version + 1 && b'.bufs.Keys == b.bufs.Keys
      && forall id | id in b.bufs ::
           b'.bufs[id] == if |b.bufs[id]| < capacity then b.bufs[id] + [Event(b.version + 1, body)] else b.bufs[id]
  {
  }

  /** A Go channel: a buffer and whether it has been closed. */
  class Channel<E> {
    var buf: seq<Event<E>>
    var closed: bool

    constructor ()
      ensures buf == [] && !closed
    {
      buf, closed := [], false;
    }

    /** The select with a default: sends if there is room. */
    method Send(event: Event<E>, capacity: nat)
      requires !closed
      modifies this`buf
      ensures buf == Offer(old(buf), event, capacity)
      ensures buf == if |old(buf)| < capacity then old(buf) + [event] else old(buf)
    {
      if |buf| < capacity { buf := buf + [event]; }
    }
  }

  class EventBusImpl<E> {
    const capacity: nat
    var version: int
    var subscribers: map<string, Channel<E>>

    constructor (capacity: nat)
      ensures Valid() && this.capacity == capacity && View() == Bus(0, map[])
    {
      this.capacity := capacity;
      version, subscribers := 0, map[];
    }

    /** Subscribers have channels of their own, all open and within capacity. */
    ghost predicate Valid()
      reads this, subscribers.Values
    {
      && (forall a, b | a in subscribers && b in subscribers && a != b :: subscribers[a] != subscribers[b])
      && (forall id | id in subscribers :: !subscribers[id].closed && |subscribers[id].buf| <= capacity)
    }

    ghost function View(): Bus<E>
      reads this, subscribers.Values
    {
      Bus(version, map id | id in subscribers :: subscribers[id].buf)
    }

    method Subscribe(id: string) returns (ch: Channel<E>)
      requires Valid()
      modifies this
      ensures Valid() && View() == Subscribed(old(View()), id)
      ensures fresh(ch) && subscribers == old(subscribers)[id := ch] && ch.buf == [] && version == old(version)
    {
      ch := new Channel<E>();
      subscribers := subscribers[id := ch];
    }

    /** Closes the channel at most once: a second call finds no subscriber. */
    method Unsubscribe(id: string)
      requires Valid()
      modifies this, subscribers.Values
      ensures Valid() && View() == Unsubscribed(old(View()), id)
      ensures id in old(subscribers) ==> old(subscribers)[id].closed
      ensures subscribers == old(subscribers) - {id} && version == old(version)
    {
      if id in subscribers {
        subscribers[id].closed := true;
        subscribers := subscribers - {id};
      }
    }

    /** The loop over the subscribers; it never sends on a closed channel. */
    method SendAll(event: Event<E>)
      requires Valid()
      modifies subscribers.Values
      ensures forall id | id in subscribers ::
        !subscribers[id].closed && subscribers[id].buf == Offer(old(subscribers[id].buf), event, capacity)
    {
      var todo := subscribers.Keys;
      while todo != {}
        invariant todo <= subscribers.Keys
        invariant forall id | id in subscribers ::
          !subscribers[id].closed &&
          subscribers[id].buf ==
            if id in todo then old(subscribers[id].buf) else Offer(old(subscribers[id].buf), event, capacity)
        decreases todo
      {
        var id :| id in todo;
        subscribers[id].Send(event, capacity);
        todo := todo - {id};
      }
    }

    method Publish(body: E)
      requires Valid()
      modifies this, subscribers.Values
      ensures Valid() && subscribers == old(subscribers)
      ensures View() == Published(old(View()), body, capacity)
      ensures version == old(version) + 1
    {
      version := version + 1;
      SendAll(Event(version, body));
    }
  }
}
