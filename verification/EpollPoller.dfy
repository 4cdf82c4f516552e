/** Channels, the poller's map and the kernel's interest set. The kernel refuses to add what is
    there and to change or delete what is not; the poller must never be refused. */
module Epoll {

  /** Event masks, as in <sys/epoll.h>. */
  const EPOLLIN: bv32 := 0x001
  const EPOLLPRI: bv32 := 0x002
  const EPOLLOUT: bv32 := 0x004

  const NONE_EVENT: bv32 := 0
  const READ_EVENT: bv32 := EPOLLIN | EPOLLPRI
  const WRITE_EVENT: bv32 := EPOLLOUT

  /** The channel's `index_`: kNew, kAdded, kDeleted. */
  datatype Index = New | Added | Deleted

  datatype Operation = CtlAdd | CtlMod | CtlDel

  /** An entry of the kernel's interest set: the mask, and the channel that epoll_wait hands back. */
  datatype Registration = Registration(events: bv32, channel: Channel)

  /** An entry of what epoll_wait returns. */
  datatype Report = Report(fd: int, events: bv32)

  class Channel {
    const fd: int
    const poller: EpollPoller
    var events: bv32
    /** What epoll_wait last reported. */
    var revents: bv32
    var index: Index

    constructor (poller: EpollPoller, fd: int)
      ensures this.poller == poller && this.fd == fd && events == NONE_EVENT && index == New
    {
      this.poller, this.fd, events, revents, index := poller, fd, NONE_EVENT, 0, New;
    }

    predicate IsNoneEvent()
      reads this
    {
      events == NONE_EVENT
    }

    predicate IsWriting()
      reads this
    {
      events & WRITE_EVENT != 0
    }

    /** enableReading, disableReading, enableWriting, disableWriting, disableAll: the new mask, and
        update(). Whatever the mask and the history, user space and kernel agree afterwards. */
    method SetEvents(mask: bv32)
      requires poller.Valid() && this in poller.known
      modifies this, poller`channels, poller`interest, poller`refusals
      ensures poller.Valid() && events == mask
      ensures index == if old(index).Added? && mask == NONE_EVENT then Deleted else Added
      ensures forall f :: f != fd ==> (f in poller.interest <==> f in old(poller.interest))
      ensures forall f :: f != fd && f in poller.interest ==> poller.interest[f] == old(poller.interest)[f]
    {
      events := mask;
      poller.UpdateChannel(this);
    }

    method EnableReading()
      requires poller.Valid() && this in poller.known
      modifies this, poller`channels, poller`interest, poller`refusals
      ensures poller.Valid() && events == old(events) | (EPOLLIN | EPOLLPRI)
      ensures index.Added? && fd in poller.interest && poller.interest[fd].events == events
    {
      var mask := events | READ_EVENT;
      ReadBits(events);
      SetEvents(mask);
      assert poller.Agrees(this);
    }

    method EnableWriting()
      requires poller.Valid() && this in poller.known
      modifies this, poller`channels, poller`interest, poller`refusals
      ensures poller.Valid() && events == old(events) | EPOLLOUT && IsWriting()
      ensures index.Added? && fd in poller.interest && poller.interest[fd].events == events
    {
      var mask := events | WRITE_EVENT;
      WriteBits(events);
      SetEvents(mask);
      assert poller.Agrees(this);
    }

    method DisableReading()
      requires poller.Valid() && this in poller.known
      modifies this, poller`channels, poller`interest, poller`refusals
      ensures poller.Valid() && events == old(events) & !(EPOLLIN | EPOLLPRI)
    {
      SetEvents(events & !READ_EVENT);
    }

    method DisableWriting()
      requires poller.Valid() && this in poller.known
      modifies this, poller`channels, poller`interest, poller`refusals
      ensures poller.Valid() && events == old(events) & !EPOLLOUT && !IsWriting()
    {
      WriteBits(events);
      SetEvents(events & !WRITE_EVENT);
    }

    /** Only a channel that was registered leaves the kernel's set; any other one enters it. */
    method DisableAll()
      requires poller.Valid() && this in poller.known
      modifies this, poller`channels, poller`interest, poller`refusals
      ensures poller.Valid() && events == NONE_EVENT
      ensures fd in poller.interest <==> !old(index).Added?
    {
      SetEvents(NONE_EVENT);
      assert poller.Agrees(this);
    }

    method Remove()
      requires poller.Valid() && this in poller.known
      modifies this, poller`channels, poller`interest, poller`refusals
      ensures poller.Valid() && events == old(events) && index.New?
      ensures fd !in poller.interest && fd !in poller.channels
    {
      poller.RemoveChannel(this);
      assert poller.Agrees(this);
    }
  }

  /** Reading is the bits 0 and 1 of a mask, writing is bit 2, and disabling clears just these. */
  lemma EventBits()
    ensures READ_EVENT == 3 && !READ_EVENT == 0xffff_fffc
    ensures WRITE_EVENT == 4 && !WRITE_EVENT == 0xffff_fffb
  {
  }

  lemma ReadBits(events: bv32)
    ensures events | READ_EVENT != NONE_EVENT
  {
  }

  lemma WriteBits(events: bv32)
    ensures events | WRITE_EVENT != NONE_EVENT && (events | WRITE_EVENT) & WRITE_EVENT != 0
    ensures (events & !WRITE_EVENT) & WRITE_EVENT == 0
  {
  }

  class EpollPoller {
    var channels: map<int, Channel>
    /** The kernel's side, and how many epoll_ctl calls it has refused. */
    var interest: map<int, Registration>
    var refusals: nat
    /** The channels in use; no two share a descriptor. */
    ghost var known: set<Channel>

    /** One channel: kAdded exactly if the kernel has it, with its very mask; kDeleted only with an
        empty mask; and in the map exactly if it is not kNew. */
    ghost predicate Agrees(c: Channel)
      reads this, c
    {
      && (c.index.Added? <==> c.fd in interest)
      && (c.fd in interest ==> interest[c.fd] == Registration(c.events, c))
      && (c.index.Deleted? ==> c.events == NONE_EVENT)
      && (!c.index.New? <==> c.fd in channels)
      && (c.fd in channels ==> channels[c.fd] == c)
    }

    ghost predicate Tidy()
      reads this, known
    {
      && refusals == 0
      && (forall c :: c in known ==> c.poller == this)
      && (forall c, d :: c in known && d in known && c.fd == d.fd ==> c == d)
      && (forall f :: f in interest ==> interest[f].channel in known && interest[f].channel.fd == f)
      && (forall f :: f in channels ==> channels[f] in known && channels[f].fd == f)
    }

    ghost predicate Valid()
      reads this, known
    {
      Tidy() && forall c :: c in known ==> Agrees(c)
    }

    constructor ()
      ensures Valid() && known == {} && channels == map[] && interest == map[]
    {
      channels, interest, refusals, known := map[], map[], 0, {};
    }

    /** A new channel on a descriptor that no channel in use has. */
    ghost method Adopt(c: Channel)
      requires Valid() && c.poller == this && c.index.New? && c.events == NONE_EVENT
      requires forall d :: d in known ==> d.fd != c.fd
      modifies this`known
      ensures Valid() && known == old(known) + {c}
    {
      known := known + {c};
    }

    /** A removed channel may be destroyed and its descriptor used again. */
    ghost method Retire(c: Channel)
      requires Valid() && c in known && c.index.New?
      modifies this`known
      ensures Valid() && known == old(known) - {c}
    {
      known := known - {c};
    }

    /** update(): epoll_ctl, with the kernel's rules. */
    method Ctl(op: Operation, c: Channel)
      modifies this`interest, this`refusals
      ensures var present := c.fd in old(interest);
              if op.CtlAdd? == present then refusals == old(refusals) + 1 && interest == old(interest)
              else refusals == old(refusals) &&
                   interest == if op.CtlDel? then old(interest) - {c.fd}
                               else old(interest)[c.fd := Registration(c.events, c)]
    {
      if op.CtlAdd? == (c.fd in interest) {
        refusals := refusals + 1;
      } else if op.CtlDel? {
        interest := interest - {c.fd};
      } else {
        interest := interest[c.fd := Registration(c.events, c)];
      }
    }

    /** updateChannel: `c`'s mask has just been set; all other channels are in agreement, and so was
        `c` but for the mask. */
    method UpdateChannel(c: Channel)
      requires Tidy() && c in known
      requires forall d :: d in known && d != c ==> Agrees(d)
      requires c.index.Added? <==> c.fd in interest
      requires !c.index.New? <==> c.fd in channels
      modifies this`channels, this`interest, this`refusals, c`index
      ensures Valid()
      ensures c.index == if old(c.index).Added? && c.events == NONE_EVENT then Deleted else Added
      ensures forall f :: f != c.fd ==> (f in interest <==> f in old(interest))
      ensures forall f :: f != c.fd && f in interest ==> interest[f] == old(interest)[f]
    {
      if c.index.New? || c.index.Deleted? {
        if c.index.New? {
          channels := channels[c.fd := c];
        }
        c.index := Added;
        Ctl(CtlAdd, c);
      } else if c.IsNoneEvent() {
        Ctl(CtlDel, c);
        c.index := Deleted;
      } else {
        Ctl(CtlMod, c);
      }
      forall d | d in known ensures Agrees(d) {
        if d != c {
          assert d.fd != c.fd && old(Agrees(d));
        }
      }
    }

    method RemoveChannel(c: Channel)
      requires Valid() && c in known
      modifies this`channels, this`interest, this`refusals, c`index
      ensures Valid() && c.index.New?
    {
      assert Agrees(c);
      channels := channels - {c.fd};
      if c.index.Added? {
        Ctl(CtlDel, c);
      }
      c.index := New;
      forall d | d in known ensures Agrees(d) {
        if d != c {
          assert d.fd != c.fd && old(Agrees(d));
        }
      }
    }

    /** hasChannel: in the map exactly while registered or deleted but not removed. */
    method HasChannel(c: Channel) returns (has: bool)
      requires Valid() && c in known
      ensures has <==> !c.index.New?
    {
      assert Agrees(c);
      has := c.fd in channels && channels[c.fd] == c;
    }

    /** Every registration that epoll_wait could report leads back to a channel in use that is
        interested in exactly what the kernel watches for. */
    method ReportedChannel(f: int) returns (c: Channel, events: bv32)
      requires Valid() && f in interest
      ensures c in known && c.fd == f && c.index.Added? && events == c.events
    {
      c, events := interest[f].channel, interest[f].events;
      assert Agrees(c);
    }

    /** One entry: its events go to the channel it leads to, and to no other. */
    method Deliver(report: Report) returns (channel: Channel)
      requires Valid() && report.fd in interest
      modifies known`revents
      ensures Valid() && channel in known && channel.fd == report.fd && channel.index.Added?
      ensures channel.revents == report.events
      ensures forall c :: c in known && c != channel ==> c.revents == old(c.revents)
    {
      channel := interest[report.fd].channel;
      assert Agrees(channel);
      channel.revents := report.events;
    }

    /** fillActiveChannel: what epoll_wait reports, each descriptor at most once, becomes the list of
        the channels registered for these descriptors, in the same order, and each of them has
        received exactly its own events; no other channel has received any. */
    method FillActiveChannels(reports: seq<Report>) returns (active: seq<Channel>)
      requires Valid()
      requires forall i :: 0 <= i < |reports| ==> reports[i].fd in interest
      requires forall i, j :: 0 <= i < j < |reports| ==> reports[i].fd != reports[j].fd
      modifies known`revents
      ensures Valid() && |active| == |reports|
      ensures forall i :: 0 <= i < |reports| ==> Received(active[i], reports[i])
      ensures forall c :: c in known && c !in active ==> c.revents == old(c.revents)
    {
      active := [];
      for k := 0 to |reports|
        invariant Valid() && |active| == k
        invariant forall i :: 0 <= i < k ==> Received(active[i], reports[i])
        invariant forall c :: c in known && c !in active ==> c.revents == old(c.revents)
      {
        ghost var before := active;
        var channel := Deliver(reports[k]);
        assert forall i :: 0 <= i < k ==> active[i] != channel;
        active := active + [channel];
        assert forall c :: c !in active ==> c !in before && c != channel;
      }
    }

    ghost predicate Received(c: Channel, report: Report)
      reads this, c
    {
      c in known && c.fd == report.fd && c.index.Added? && c.revents == report.events
    }
  }

  /** A channel that is disabled twice, as by handleClose and then connnectionDestroyed, ends up
      registered under an empty mask. */
  method DisabledTwice(fd: int) returns (registered: bool, events: bv32)
    ensures registered && events == NONE_EVENT
  {
    var poller := new EpollPoller();
    var channel := new Channel(poller, fd);
    poller.Adopt(channel);
    channel.EnableReading();
    channel.DisableAll();
    channel.DisableAll();
    assert poller.Agrees(channel);
    registered, events := fd in poller.interest, poller.interest[fd].events;
  }
}
