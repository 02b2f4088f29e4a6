/** The event loop of close_inactivate_conn.cpp over the timer list of lst_timer.h: the users table, the timer
    list and the flags, changed by one event after the other. Descriptors and clock readings come with the
    events; epoll and the sockets are not modelled. */
module IdleServer {
  import opened Common
  import opened SortedModel
  import opened SortedList
  import opened IdleModel

  const FD_LIMIT := 65535

  /** client_data; the buffer and the address are left out. */
  datatype ClientData = ClientData(sockfd: int, timer: UtilTimer?)

  /** What recv on a connection comes to: EAGAIN, another error, end of file, or data. */
  datatype Recv = Again | Error | Eof | Bytes

  /** One entry of what epoll_wait reports, with what the calls made for it return. */
  datatype Wakeup =
    | Incoming(fd: Fd, now: int)
    | Readable(fd: Fd, recv: Recv, now: int)
    | Signals(alarm: bool, term: bool)

  /** The list by descriptors instead of nodes. */
  ghost function Conns(es: seq<Timer<UtilTimer>>): (s: seq<Timer<Fd>>)
    ensures |s| == |es| && forall k :: 0 <= k < |s| ==> s[k] == Timer(es[k].id.userData, es[k].expire)
  {
    seq(|es|, k requires 0 <= k < |es| => Timer(es[k].id.userData, es[k].expire))
  }

  lemma ConnsPosition(es: seq<Timer<UtilTimer>>, x: int)
    ensures Position(Conns(es), x) == Position(es, x)
  {
    PositionIs(Conns(es), x, Position(es, x));
  }

  lemma ConnsInsert(es: seq<Timer<UtilTimer>>, t: Timer<UtilTimer>)
    ensures Conns(Insert(es, t)) == Insert(Conns(es), Timer(t.id.userData, t.expire))
  {
    ConnsPosition(es, t.expire);
  }

  lemma ConnsCut(es: seq<Timer<UtilTimer>>, i: nat)
    requires i < |es|
    ensures Conns(Cut(es, i)) == Cut(Conns(es), i)
  {
  }

  lemma ConnsReset(es: seq<Timer<UtilTimer>>, i: nat, e: int)
    requires i < |es|
    ensures Conns(Reset(es, i, e)) == Reset(Conns(es), i, e)
  {
  }

  lemma ConnsTick(es: seq<Timer<UtilTimer>>, now: int)
    ensures Conns(Left(es, now)) == Left(Conns(es), now)
    ensures Conns(Fired(es, now)) == Fired(Conns(es), now)
  {
    ConnsPosition(es, now);
  }

  lemma ConnsPut(es: seq<Timer<UtilTimer>>, k: nat, t: Timer<UtilTimer>)
    requires k <= |es|
    ensures Conns(PutAt(es, k, t)) == PutAt(Conns(es), k, Timer(t.id.userData, t.expire))
  {
  }

  lemma ConnsWalk(es: seq<Timer<UtilTimer>>, x: int)
    requires es != []
    ensures WalkPosition(Conns(es), x) == WalkPosition(es, x)
  {
    ConnsPosition(es[1..], x);
    assert Conns(es)[1..] == Conns(es[1..]);
  }

  lemma ConnsAdjust(es: seq<Timer<UtilTimer>>, i: nat)
    requires i < |es|
    ensures Conns(Adjust(es, i)) == Adjust(Conns(es), i)
  {
    if i + 1 < |es| && es[i + 1].expire <= es[i].expire {
      var c := Cut(es, i);
      ConnsCut(es, i);
      assert c != [];
      hide Cut, Conns, WalkPosition, PutAt;
      ConnsWalk(c, es[i].expire);
      ConnsPut(c, WalkPosition(c, es[i].expire), es[i]);
    }
  }

  lemma ConnsPostpone(es: seq<Timer<UtilTimer>>, i: nat, expire: int)
    requires i < |es| && Sorted(es) && es[i].expire <= expire
    ensures Sorted(Adjust(Reset(es, i, expire), i))
    ensures Conns(Adjust(Reset(es, i, expire), i)) == Adjust(Reset(Conns(es), i, expire), i)
  {
    hide Sorted, Adjust, Conns;
    PostponeReinserts(es, i, expire);
    ConnsReset(es, i, expire);
    ConnsAdjust(Reset(es, i, expire), i);
  }

  lemma LeftSorted(es: seq<Timer<UtilTimer>>, now: int)
    requires Sorted(es)
    ensures Sorted(Left(es, now))
  {
    hide Sorted, Fired, Left;
    TickFiresExpired(es, now);
  }

  /** Each timer is the one its connection's entry in the table points to. */
  ghost predicate Tabled(users: seq<ClientData>, s: seq<UtilTimer>) {
    forall t :: t in s ==> t.userData < |users| && users[t.userData] == ClientData(t.userData, t)
  }

  lemma AmongTabled(users: seq<ClientData>, s: seq<UtilTimer>, s': seq<UtilTimer>)
    requires Tabled(users, s) && Among(s', s)
    ensures Tabled(users, s')
  {
  }

  lemma SuffixAmong(a: seq<UtilTimer>, b: seq<UtilTimer>)
    ensures Among(b, a + b)
  {
    assert forall k :: 0 <= k < |b| ==> b[k] == (a + b)[|a| + k];
  }

  function FdsOf(s: seq<UtilTimer>): seq<Fd> {
    seq(|s|, k requires 0 <= k < |s| => s[k].userData)
  }

  lemma FdsFired(s: seq<UtilTimer>, es: seq<Timer<UtilTimer>>)
    requires Stored(s, es)
    ensures FdsOf(s) == IdsOf(Conns(es))
  {
  }

  /** What a wake-up means for the connections, if anything. */
  ghost function EventOf(w: Wakeup): seq<Event> {
    match w
    case Incoming(fd, now) => [IdleModel.Accept(fd, now)]
    case Readable(fd, recv, now) =>
      if recv.Bytes? then [IdleModel.Data(fd, now)] else if recv.Again? then [] else [IdleModel.Close(fd)]
    case Signals(_, _) => []
  }

  ghost function EventsOf(ws: seq<Wakeup>): seq<Event> {
    if ws == [] then [] else EventOf(ws[0]) + EventsOf(ws[1..])
  }

  predicate Alarmed(ws: seq<Wakeup>) {
    exists k :: 0 <= k < |ws| && ws[k].Signals? && ws[k].alarm
  }

  /** A batch: its wake-ups, and at its end a tick if the timeout flag is up. */
  ghost function BatchEvents(ws: seq<Wakeup>, tick: bool, now: int): seq<Event> {
    EventsOf(ws) + if tick then [IdleModel.Expire(now)] else []
  }

  predicate InTableRange(w: Wakeup) {
    w.Incoming? ==> w.fd < FD_LIMIT
  }

  predicate Terminated(ws: seq<Wakeup>) {
    exists k :: 0 <= k < |ws| && ws[k].Signals? && ws[k].term
  }

  lemma RunsSplit(s: seq<Timer<Fd>>, last: Activity, w: Wakeup, es: seq<Event>)
    requires LegalRun(last, EventOf(w) + es)
    ensures LegalRun(last, EventOf(w)) && LegalRun(Activities(last, EventOf(w)), es)
    ensures After(s, EventOf(w) + es) == After(After(s, EventOf(w)), es)
    ensures Activities(last, EventOf(w) + es) == Activities(Activities(last, EventOf(w)), es)
    ensures Closings(s, EventOf(w) + es) == Closings(After(s, EventOf(w)), es)
  {
    RunsCompose(s, last, EventOf(w), es);
    assert Closings(s, EventOf(w)) == [];
  }

  /** One pass of the outer loop: what epoll_wait reports, and the clock when a tick comes at its end. */
  datatype Round = Round(wakeups: seq<Wakeup>, now: int)

  ghost function RoundEvents(round: Round): seq<Event> {
    BatchEvents(round.wakeups, Alarmed(round.wakeups), round.now)
  }

  /** The events of a whole run of the server, which ends with the round in which SIGTERM comes. */
  ghost function EventsOfRun(rounds: seq<Round>): seq<Event> {
    if rounds == [] then []
    else RoundEvents(rounds[0]) + if Terminated(rounds[0].wakeups) then [] else EventsOfRun(rounds[1..])
  }

  /** Two points of one run: what is still to come makes of both the same list, the same table and the same
      closings. */
  ghost predicate SameOutcome(last: Activity, s: seq<Timer<Fd>>, es: seq<Event>,
                              last': Activity, s': seq<Timer<Fd>>, es': seq<Event>) {
    && After(s, es) == After(s', es') && Activities(last, es) == Activities(last', es')
    && Closings(s, es) == Closings(s', es')
  }

  lemma AlarmedNext(ws: seq<Wakeup>, i: nat)
    requires i < |ws|
    ensures Alarmed(ws[..i + 1]) <==> Alarmed(ws[..i]) || (ws[i].Signals? && ws[i].alarm)
  {
    assert forall k :: 0 <= k < i ==> ws[..i + 1][k] == ws[..i][k];
    assert ws[..i + 1][i] == ws[i];
  }

  lemma TerminatedNext(ws: seq<Wakeup>, i: nat)
    requires i < |ws|
    ensures Terminated(ws[..i + 1]) <==> Terminated(ws[..i]) || (ws[i].Signals? && ws[i].term)
  {
    assert forall k :: 0 <= k < i ==> ws[..i + 1][k] == ws[..i][k];
    assert ws[..i + 1][i] == ws[i];
  }

  /** `r` is `s` without its one timer of this connection. */
  ghost predicate WithoutTimer(s: seq<Timer<Fd>>, fd: Fd, r: seq<Timer<Fd>>) {
    && (exists i :: 0 <= i < |s| && s[i].id == fd && r == Cut(s, i))
    && forall k :: 0 <= k < |r| ==> r[k].id != fd
  }

  /** What a wake-up does to the timers: a new connection gets one, due in 15 seconds; data puts the connection's at the
      end, due in 15 seconds again; end of file and an error take it away; nothing else touches any. */
  ghost predicate Reaction(w: Wakeup, s: seq<Timer<Fd>>, s': seq<Timer<Fd>>) {
    match w
    case Incoming(fd, now) => s' == s + [Timer(fd, now + 15)]
    case Signals(_, _) => s' == s
    case Readable(fd, recv, now) =>
      match recv
      case Again => s' == s
      case Error => WithoutTimer(s, fd, s')
      case Eof => WithoutTimer(s, fd, s')
      case Bytes => s' != [] && s'[|s'| - 1] == Timer(fd, now + 15) && WithoutTimer(s, fd, s'[..|s'| - 1])
  }

  lemma CutIsWithout(s: seq<Timer<Fd>>, last: Activity, fd: Fd)
    requires Represents(s, last) && fd in last
    ensures IndexOf(s, fd) < |s| && WithoutTimer(s, fd, Cut(s, IndexOf(s, fd)))
  {
    hide IndexOf, Sorted;
    InTable(s, last, fd);
    CutAt(s, IndexOf(s, fd));
  }

  lemma WakeupMeans(s: seq<Timer<Fd>>, last: Activity, w: Wakeup)
    requires Represents(s, last) && LegalRun(last, EventOf(w))
    ensures Reaction(w, s, After(s, EventOf(w)))
  {
    hide Represents, Insert, Adjust, Cut, WithoutTimer, IndexOf;
    OneEvent(s, last, w);
    match w
    case Incoming(fd, now) => AcceptRepresents(s, last, fd, now);
    case Signals(_, _) =>
    case Readable(fd, recv, now) =>
      if recv.Bytes? {
        CutIsWithout(s, last, fd);
        DataRepresents(s, last, fd, now);
        var c := Cut(s, IndexOf(s, fd));
        assert (c + [Timer(fd, Deadline(now))])[..|c|] == c;
      } else if !recv.Again? {
        CutIsWithout(s, last, fd);
      }
  }

  class Server {
    const users: array<ClientData>
    const timerLst: SortTimerList
    var timeout: bool
    var stopServer: bool
    /** When SIGALRM is to come: `alarm` was called TIMESLOT before. */
    var alarmDue: int

    ghost function List(): (s: seq<Timer<Fd>>)
      reads timerLst, timerLst.nodes
      ensures |s| == |timerLst.nodes|
      ensures forall k :: 0 <= k < |s| ==> s[k] == Timer(timerLst.nodes[k].userData, timerLst.nodes[k].expire)
    {
      Conns(timerLst.Timers())
    }

    /** The list is in order, and the table leads to its timers. */
    ghost predicate Wired()
      reads users, timerLst, timerLst.nodes
    {
      users.Length == FD_LIMIT && timerLst.Valid() && Tabled(users[..], timerLst.nodes)
    }

    /** `last` is the last activity of every open connection. */
    ghost predicate Valid(last: Activity)
      reads users, timerLst, timerLst.nodes
    {
      Wired() && Represents(List(), last)
    }

    lemma TimersOfOpen(last: Activity)
      requires Valid(last)
      ensures forall t :: t in timerLst.nodes ==> t.userData in last
    {
      forall t | t in timerLst.nodes
        ensures t.userData in last
      {
        var k :| 0 <= k < |timerLst.nodes| && timerLst.nodes[k] == t;
        assert timerLst.Timers()[k].id == t && List()[k].id == t.userData;
      }
    }

    constructor (now: int)
      ensures Valid(map[]) && List() == [] && !timeout && !stopServer && alarmDue == now + 5
      ensures fresh(users) && fresh(timerLst) && users.Length == 65535
    {
      users := new ClientData[FD_LIMIT](_ => ClientData(-1, null));
      timerLst := new SortTimerList();
      timeout, stopServer, alarmDue := false, false, now + TIMESLOT;
    }

    /** Lines 138 to 150, on the heap. */
    method Enter(connfd: Fd, now: int)
      requires Wired() && connfd < FD_LIMIT && forall t :: t in timerLst.nodes ==> t.userData != connfd
      modifies users, timerLst, timerLst.nodes
      ensures Wired() && List() == Insert(old(List()), Timer(connfd, Deadline(now)))
      ensures forall t :: t in timerLst.nodes ==> t in old(timerLst.nodes) || fresh(t)
    {
      hide Chain, Stored, Sorted, Insert, SortTimerList.Timers, SortTimerList.Valid, Conns;
      ghost var es := timerLst.Timers();
      var expire := now + 3 * TIMESLOT;
      assert expire == Deadline(now);
      hide Deadline;
      var timer := new UtilTimer(connfd, expire);
      users[connfd] := ClientData(connfd, timer);
      timerLst.AddTimer(timer);
      ConnsInsert(es, Timer(timer, Deadline(now)));
      assert Tabled(users[..], timerLst.nodes);
    }

    /** Lines 133 to 151. */
    method Accept(connfd: Fd, now: int, ghost last: Activity)
      requires Valid(last) && connfd < FD_LIMIT && IdleModel.Legal(last, IdleModel.Accept(connfd, now))
      modifies users, timerLst, timerLst.nodes
      ensures Valid(Record(last, IdleModel.Accept(connfd, now)))
      ensures List() == Handle(old(List()), IdleModel.Accept(connfd, now))
      ensures forall t :: t in timerLst.nodes ==> t in old(timerLst.nodes) || fresh(t)
    {
      TimersOfOpen(last);
      hide Deadline, Insert, Represents, Tabled, Server.Wired, Server.List;
      AcceptRepresents(List(), last, connfd, now);
      Enter(connfd, now);
    }

    /** The table leads to the timer of an open connection. */
    lemma TimerOf(last: Activity, fd: Fd)
      requires Valid(last) && fd in last
      ensures var i := IndexOf(List(), fd);
              && i < |timerLst.nodes| == |List()| && fd < FD_LIMIT == users.Length
              && users[fd] == ClientData(fd, timerLst.nodes[i])
    {
      var i := IndexOf(List(), fd);
      InTable(List(), last, fd);
      var t := timerLst.nodes[i];
      assert timerLst.Timers()[i].id == t && t in timerLst.nodes;
    }

    /** Lines 193 to 197 and again 202 to 206: the descriptor is closed and its timer deleted. */
    method Leave(fd: Fd, ghost last: Activity)
      requires Valid(last) && fd in last
      modifies timerLst, timerLst.nodes`next, timerLst.nodes`prev
      ensures Valid(Record(last, IdleModel.Close(fd)))
      ensures List() == Handle(old(List()), IdleModel.Close(fd))
      ensures Among(timerLst.nodes, old(timerLst.nodes))
    {
      hide Represents, IndexOf, Cut, Server.Wired, Server.List, Among;
      TimerOf(last, fd);
      CutRepresents(List(), last, IndexOf(List(), fd));
      InTable(List(), last, fd);
      Drop(users[fd].timer, IndexOf(List(), fd));
    }

    method Drop(timer: UtilTimer?, ghost i: nat)
      requires Wired() && i < |timerLst.nodes| && timerLst.nodes[i] == timer
      modifies timerLst, timerLst.nodes`next, timerLst.nodes`prev
      ensures Wired() && |old(List())| > i && List() == Cut(old(List()), i)
      ensures Among(timerLst.nodes, old(timerLst.nodes))
    {
      ghost var s, es := timerLst.nodes, timerLst.Timers();
      CutSorted(es, i);
      ConnsCut(es, i);
      StoredCut(s, es, i);
      hide Chain, Stored, Sorted, Cut, SortTimerList.Timers, Conns;
      if timer != null {
        timerLst.DelTimer(timer);
      }
      AmongTabled(users[..], s, timerLst.nodes);
    }

    /** Lines 210 to 216: activity postpones the connection's timer. */
    method Touch(fd: Fd, now: int, ghost last: Activity)
      requires Valid(last) && IdleModel.Legal(last, IdleModel.Data(fd, now))
      modifies timerLst, timerLst.nodes
      ensures Valid(Record(last, IdleModel.Data(fd, now)))
      ensures List() == Handle(old(List()), IdleModel.Data(fd, now))
      ensures Among(timerLst.nodes, old(timerLst.nodes))
    {
      var expire := now + 3 * TIMESLOT;
      TimerOf(last, fd);
      HandleRepresents(List(), last, IdleModel.Data(fd, now));
      HandleData(List(), last, fd, now);
      assert expire == Deadline(now);
      hide Deadline, Server.Wired, Tabled, Server.List, Represents, Adjust, Reset, IndexOf, Handle, Record;
      hide IdleModel.Legal;
      Renew(users[fd].timer, expire, IndexOf(List(), fd));
    }

    lemma HandleData(s: seq<Timer<Fd>>, last: Activity, fd: Fd, now: int)
      requires Represents(s, last) && IdleModel.Legal(last, IdleModel.Data(fd, now))
      ensures IndexOf(s, fd) < |s| && s[IndexOf(s, fd)].expire <= Deadline(now)
      ensures Handle(s, IdleModel.Data(fd, now)) == Adjust(Reset(s, IndexOf(s, fd), Deadline(now)), IndexOf(s, fd))
    {
      hide Adjust, Reset, Sorted;
    }

    method Renew(timer: UtilTimer?, expire: int, ghost i: nat)
      requires Wired() && i < |timerLst.nodes| && timerLst.nodes[i] == timer && List()[i].expire <= expire
      modifies timerLst, timerLst.nodes
      ensures Wired() && |old(List())| > i && List() == Adjust(Reset(old(List()), i, expire), i)
      ensures Among(timerLst.nodes, old(timerLst.nodes))
    {
      ghost var es, us := timerLst.Timers(), users[..];
      hide Chain, Stored, Sorted, Adjust, Reset, SortTimerList.Timers, SortTimerList.Linked, Tabled, Among;
      ConnsPostpone(es, i, expire);
      hide Conns;
      if timer == null {
        return;
      }
      timerLst.Reschedule(timer, expire, i);
      AmongTabled(us, old(timerLst.nodes), timerLst.nodes);
    }

    /** A tick of the list, every callback closing its connection, and the next alarm. */
    method TimeHandler(now: int, ghost last: Activity) returns (closed: seq<Fd>)
      requires Valid(last) && IdleModel.Legal(last, IdleModel.Expire(now))
      modifies `alarmDue, timerLst, timerLst.nodes`prev
      ensures Valid(Record(last, IdleModel.Expire(now))) && alarmDue == now + 5
      ensures List() == Handle(old(List()), IdleModel.Expire(now)) && closed == IdsOf(Fired(old(List()), now))
      ensures forall fd :: fd in closed <==> fd in last && now - last[fd] >= 15
      ensures Among(timerLst.nodes, old(timerLst.nodes))
    {
      hide Server.Valid, Server.List, Record, Handle, Among, IdleModel.Legal;
      closed := CloseIdle(now, last);
      alarmDue := now + TIMESLOT;
    }

    /** Line 64. */
    method CloseIdle(now: int, ghost last: Activity) returns (closed: seq<Fd>)
      requires Valid(last)
      modifies timerLst, timerLst.nodes`prev
      ensures Valid(Record(last, IdleModel.Expire(now)))
      ensures List() == Handle(old(List()), IdleModel.Expire(now)) && closed == IdsOf(Fired(old(List()), now))
      ensures forall fd :: fd in closed <==> fd in last && now - last[fd] >= 15
      ensures Among(timerLst.nodes, old(timerLst.nodes))
    {
      ghost var s := List();
      ExpireRepresents(s, last, now);
      forall fd
        ensures fd in IdsOf(Fired(s, now)) <==> fd in last && now - last[fd] >= LIMIT
      {
        ClosedNow(s, last, now, fd);
      }
      RecordOfTick(last, s, now);
      hide Server.Wired, Server.List, Represents, IdleAt, Left, Fired, IdsOf, Record, Handle;
      closed := CloseFired(now);
    }

    method CloseFired(now: int) returns (closed: seq<Fd>)
      requires Wired()
      modifies timerLst, timerLst.nodes`prev
      ensures Wired() && List() == Left(old(List()), now) && closed == IdsOf(Fired(old(List()), now))
      ensures Among(timerLst.nodes, old(timerLst.nodes))
    {
      ghost var es := timerLst.Timers();
      hide Chain, Stored, Sorted, Left, Fired, SortTimerList.Timers, SortTimerList.Linked;
      hide Tabled, Among, Conns, FdsOf, IdsOf;
      ConnsTick(es, now);
      LeftSorted(es, now);
      var fired := timerLst.Tick(now);
      SuffixAmong(fired, timerLst.nodes);
      AmongTabled(users[..], old(timerLst.nodes), timerLst.nodes);
      FdsFired(fired, Fired(es, now));
      closed := FdsOf(fired);
    }

    /** One pass of the loop at lines 129 to 223; returns the descriptor it closes, if any. */
    method React(w: Wakeup, ghost last: Activity) returns (closed: Option<Fd>)
      requires Valid(last) && LegalRun(last, EventOf(w)) && InTableRange(w)
      modifies `timeout, `stopServer, users, timerLst, timerLst.nodes
      ensures Valid(Activities(last, EventOf(w))) && List() == After(old(List()), EventOf(w))
      ensures timeout == (old(timeout) || (w.Signals? && w.alarm))
      ensures stopServer == (old(stopServer) || (w.Signals? && w.term))
      ensures Reaction(w, old(List()), List())
      ensures w.Readable? && (w.recv.Error? || w.recv.Eof?) ==> forall t :: t in timerLst.nodes ==> t.userData != w.fd
      ensures w.Incoming? || (w.Readable? && w.recv.Bytes?) ==>
                && timerLst.nodes != []
                && var t := timerLst.nodes[|timerLst.nodes| - 1];
                   t.userData == w.fd && t.expire == w.now + 15
      ensures closed == if w.Readable? && (w.recv.Error? || w.recv.Eof?) then Some(w.fd) else None
      ensures forall t :: t in timerLst.nodes ==> t in old(timerLst.nodes) || fresh(t)
    {
      hide Server.Valid, Server.List, Handle, Record, Legal, LegalRun, Reaction, Represents;
      ghost var s := List();
      OneEvent(s, last, w);
      ValidRepresents(last);
      WakeupMeans(s, last, w);
      closed := None;
      match w {
        case Incoming(fd, now) =>
          Accept(fd, now, last);
        case Signals(alarm, term) =>
          timeout, stopServer := timeout || alarm, stopServer || term;
        case Readable(fd, recv, now) =>
          match recv {
            case Again =>
            case Error =>
              closed := Some(fd);
              Leave(fd, last);
            case Eof =>
              closed := Some(fd);
              Leave(fd, last);
            case Bytes =>
              Touch(fd, now, last);
          }
      }
      OnNodes(w, s);
    }

    /** The reaction, on the nodes of the list. */
    lemma OnNodes(w: Wakeup, s: seq<Timer<Fd>>)
      requires Reaction(w, s, List())
      ensures w.Readable? && (w.recv.Error? || w.recv.Eof?) ==> forall t :: t in timerLst.nodes ==> t.userData != w.fd
      ensures w.Incoming? || (w.Readable? && w.recv.Bytes?) ==>
                && timerLst.nodes != []
                && var t := timerLst.nodes[|timerLst.nodes| - 1];
                   t.userData == w.fd && t.expire == w.now + 15
    {
      assert forall k :: 0 <= k < |timerLst.nodes| ==> List()[k].id == timerLst.nodes[k].userData;
    }

    lemma ValidRepresents(last: Activity)
      requires Valid(last)
      ensures Represents(List(), last)
    {
    }

    /** Lines 129 to 223: the wake-ups of one batch, in order. */
    method ReactAll(ws: seq<Wakeup>, ghost last: Activity, ghost rest: seq<Event>) returns (ghost now: Activity)
      requires Valid(last) && LegalRun(last, EventsOf(ws) + rest) && forall w :: w in ws ==> InTableRange(w)
      modifies `timeout, `stopServer, users, timerLst, timerLst.nodes
      ensures timeout == (old(timeout) || Alarmed(ws)) && stopServer == (old(stopServer) || Terminated(ws))
      ensures Valid(now) && LegalRun(now, rest)
      ensures SameOutcome(last, old(List()), EventsOf(ws) + rest, now, List(), rest)
      ensures forall t :: t in timerLst.nodes ==> t in old(timerLst.nodes) || fresh(t)
    {
      hide Server.Valid, Server.List, IdleModel.Legal, LegalRun, Record, Handle, After, Activities, Closings;
      now := last;
      ghost var es := EventsOf(ws) + rest;
      assert ws[0..] == ws;
      for i := 0 to |ws|
        invariant Valid(now) && LegalRun(now, EventsOf(ws[i..]) + rest)
        invariant SameOutcome(last, old(List()), es, now, List(), EventsOf(ws[i..]) + rest)
        invariant timeout == (old(timeout) || Alarmed(ws[..i]))
        invariant stopServer == (old(stopServer) || Terminated(ws[..i]))
        invariant forall t :: t in timerLst.nodes ==> t in old(timerLst.nodes) || fresh(t)
      {
        ghost var w, later := ws[i], EventsOf(ws[i + 1..]) + rest;
        assert EventsOf(ws[i..]) + rest == EventOf(w) + later by {
          assert ws[i..][1..] == ws[i + 1..];
        }
        RunsSplit(List(), now, w, later);
        AlarmedNext(ws, i);
        TerminatedNext(ws, i);
        assert forall k :: 0 <= k < |timerLst.nodes| ==> timerLst.nodes[k] in timerLst.nodes;
        var _ := React(ws[i], now);
        now := Activities(now, EventOf(w));
      }
      assert ws[..|ws|] == ws && EventsOf(ws[|ws|..]) + rest == rest;
    }

    /** Lines 129 to 228: one batch of wake-ups, and a tick behind it if an alarm has come in. */
    method Batch(ws: seq<Wakeup>, now: int, ghost last: Activity) returns (closed: seq<Closing>)
      requires Valid(last) && (forall w :: w in ws ==> InTableRange(w))
      requires LegalRun(last, BatchEvents(ws, timeout || Alarmed(ws), now))
      modifies `timeout, `stopServer, `alarmDue, users, timerLst, timerLst.nodes
      ensures var es := BatchEvents(ws, old(timeout) || Alarmed(ws), now);
              Valid(Activities(last, es)) && List() == After(old(List()), es) && closed == Closings(old(List()), es)
      ensures !timeout && stopServer == (old(stopServer) || Terminated(ws))
      ensures alarmDue == NextAlarm(closed, old(alarmDue)) && (closed != [] <==> old(timeout) || Alarmed(ws))
      ensures forall t :: t in timerLst.nodes ==> t in old(timerLst.nodes) || fresh(t)
    {
      hide Server.Valid, Server.List, IdleModel.Legal, Record, Handle;
      ghost var rest: seq<Event> := if timeout || Alarmed(ws) then [IdleModel.Expire(now)] else [];
      ghost var last' := ReactAll(ws, last, rest);
      closed := [];
      TickAtEnd(List(), last', now);
      if timeout {
        assert forall k :: 0 <= k < |timerLst.nodes| ==> timerLst.nodes[k] in timerLst.nodes;
        var fds := TimeHandler(now, last');
        closed := [Closing(now, fds)];
        timeout := false;
      }
    }

    /** Lines 121 to 229: round after round until the server is told to stop, or for as long as it is watched. */
    method Run(rounds: seq<Round>, ghost last: Activity) returns (closed: seq<Closing>)
      requires Valid(last) && !timeout && !stopServer && InRange(rounds) && LegalRun(last, EventsOfRun(rounds))
      modifies this, users, timerLst, timerLst.nodes
      ensures var es := EventsOfRun(rounds);
              Valid(Activities(last, es)) && List() == After(old(List()), es) && closed == Closings(old(List()), es)
      ensures stopServer <==> StoppedBy(rounds, |rounds|)
      ensures alarmDue == NextAlarm(closed, old(alarmDue))
      ensures RunClosed(last, EventsOfRun(rounds), closed, old(alarmDue))
    {
      ghost var es, s := EventsOfRun(rounds), List();
      RunCloses(s, last, es, alarmDue);
      hide Server.Valid, Server.List, LegalRun, After, Activities, Closings, Untouched, ClosedAt, Continues;
      hide EventsOfRun, InRange, StoppedBy, InTime, AlarmSet, Clocked, NextAlarm, RunClosed;
      ghost var now;
      closed, now := RunRounds(rounds, last);
      NothingMore(last, s, es, closed, now, List());
    }

    method RunRounds(rounds: seq<Round>, ghost last: Activity) returns (closed: seq<Closing>, ghost now: Activity)
      requires Valid(last) && !timeout && !stopServer && InRange(rounds) && LegalRun(last, EventsOfRun(rounds))
      modifies this, users, timerLst, timerLst.nodes
      ensures Valid(now) && Continues(last, old(List()), EventsOfRun(rounds), closed, now, List(), [])
      ensures stopServer <==> StoppedBy(rounds, |rounds|)
      ensures alarmDue == NextAlarm(closed, old(alarmDue))
    {
      ghost var es, s := EventsOfRun(rounds), List();
      NothingYet(last, s, es);
      NotStopped(rounds);
      hide Server.Valid, Server.List, LegalRun, Continues, EventsOfRun, BatchEvents, InRange, StoppedBy, InTableRange;
      closed, now := [], last;
      ghost var later := es;
      assert rounds[0..] == rounds;
      var i := 0;
      while !stopServer && i < |rounds|
        invariant 0 <= i <= |rounds| && Valid(now) && !timeout && LegalRun(now, later)
        invariant later == if stopServer then [] else EventsOfRun(rounds[i..])
        invariant stopServer <==> StoppedBy(rounds, i)
        invariant Continues(last, s, es, closed, now, List(), later) && alarmDue == NextAlarm(closed, old(alarmDue))
        invariant forall t :: t in timerLst.nodes ==> t in old(timerLst.nodes) || fresh(t)
        decreases |rounds| - i
      {
        FirstRound(rounds, i);
        assert forall k :: 0 <= k < |timerLst.nodes| ==> timerLst.nodes[k] in timerLst.nodes;
        later := if Terminated(rounds[i].wakeups) then [] else EventsOfRun(rounds[i + 1..]);
        var more;
        more, now := OneRound(rounds[i], now, later, last, s, es, closed);
        AlarmsCompose(closed, more, old(alarmDue));
        closed, i := closed + more, i + 1;
      }
      FirstRound(rounds, i);
      StillStopped(rounds, i);
    }

    /** One pass of the outer loop, `rest` being the events of those to come. */
    method OneRound(round: Round, ghost now: Activity, ghost rest: seq<Event>, ghost last: Activity,
                    ghost s: seq<Timer<Fd>>, ghost es: seq<Event>, ghost closed: seq<Closing>)
      returns (more: seq<Closing>, ghost now': Activity)
      requires Valid(now) && !timeout && !stopServer && forall w :: w in round.wakeups ==> InTableRange(w)
      requires LegalRun(now, RoundEvents(round) + rest)
      requires Continues(last, s, es, closed, now, List(), RoundEvents(round) + rest)
      modifies this, users, timerLst, timerLst.nodes
      ensures Valid(now') && LegalRun(now', rest) && !timeout
      ensures stopServer <==> Terminated(round.wakeups)
      ensures Continues(last, s, es, closed + more, now', List(), rest)
      ensures alarmDue == NextAlarm(more, old(alarmDue))
      ensures forall t :: t in timerLst.nodes ==> t in old(timerLst.nodes) || fresh(t)
    {
      ghost var first := RoundEvents(round);
      hide Server.Valid, Server.List, LegalRun, Continues, BatchEvents, After, Activities, Closings;
      hide Terminated, Alarmed;
      ContinuesOn(last, s, es, closed, now, List(), first, rest);
      more := Batch(round.wakeups, round.now, now);
      now' := Activities(now, first);
    }
  }

  /** What a run of these events closes, the alarm being due at `due` when it begins: each connection without further
      activity in exactly one tick, the first at its deadline or later, and in time if alarms are answered promptly;
      and as long as the clock does not go back, alarms stay set. */
  ghost predicate RunClosed(last: Activity, es: seq<Event>, closed: seq<Closing>, due: int) {
    && (forall fd :: Untouched(es, fd) ==> ClosedAt(closed, fd, fd in last, Due(last, fd)))
    && (AlarmSet(last, due) ==>
          forall fd :: fd in last && Untouched(es, fd) ==> InTime(closed, fd, Deadline(last[fd]), due))
    && (AlarmSet(last, due) && Clocked(es, due - TIMESLOT) ==> AlarmSet(Activities(last, es), NextAlarm(closed, due)))
  }

  lemma RunCloses(s: seq<Timer<Fd>>, last: Activity, es: seq<Event>, due: int)
    requires Represents(s, last) && LegalRun(last, es)
    ensures RunClosed(last, es, Closings(s, es), due)
  {
    hide Represents, LegalRun, Untouched, ClosedAt, InTime, AlarmSet, Clocked, Closings, Activities, NextAlarm;
    forall fd | Untouched(es, fd)
      ensures ClosedAt(Closings(s, es), fd, fd in last, Due(last, fd))
    {
      ClosedWhenIdle(s, last, es, fd);
    }
    if AlarmSet(last, due) {
      forall fd | fd in last && Untouched(es, fd)
        ensures InTime(Closings(s, es), fd, Deadline(last[fd]), due)
      {
        ClosesInTime(s, last, es, fd, due);
      }
      if Clocked(es, due - TIMESLOT) {
        AlarmsStaySet(s, last, es, due, due - TIMESLOT);
      }
    }
  }

  lemma AlarmsCompose(cs: seq<Closing>, more: seq<Closing>, due: int)
    ensures NextAlarm(cs + more, due) == NextAlarm(more, NextAlarm(cs, due))
  {
  }

  ghost predicate InRange(rounds: seq<Round>) {
    forall k :: 0 <= k < |rounds| ==> forall w :: w in rounds[k].wakeups ==> InTableRange(w)
  }

  /** SIGTERM came in one of the first `n` rounds. */
  ghost predicate StoppedBy(rounds: seq<Round>, n: nat)
    requires n <= |rounds|
  {
    exists k :: 0 <= k < n && Terminated(rounds[k].wakeups)
  }

  lemma NotStopped(rounds: seq<Round>)
    ensures !StoppedBy(rounds, 0)
  {
  }

  lemma StillStopped(rounds: seq<Round>, i: nat)
    requires i <= |rounds|
    ensures StoppedBy(rounds, i) ==> StoppedBy(rounds, |rounds|)
  {
  }

  /** `now`, `s'` and `closed` are what a run has come to, and `later` is what is left of it. */
  ghost predicate Continues(last: Activity, s: seq<Timer<Fd>>, es: seq<Event>, closed: seq<Closing>,
                            now: Activity, s': seq<Timer<Fd>>, later: seq<Event>) {
    && After(s, es) == After(s', later) && Activities(last, es) == Activities(now, later)
    && Closings(s, es) == closed + Closings(s', later)
  }

  lemma NothingYet(last: Activity, s: seq<Timer<Fd>>, es: seq<Event>)
    ensures Continues(last, s, es, [], last, s, es)
  {
  }

  lemma ContinuesOn(last: Activity, s: seq<Timer<Fd>>, es: seq<Event>, closed: seq<Closing>,
                    now: Activity, s': seq<Timer<Fd>>, first: seq<Event>, rest: seq<Event>)
    requires Continues(last, s, es, closed, now, s', first + rest) && LegalRun(now, first + rest)
    ensures LegalRun(now, first) && LegalRun(Activities(now, first), rest)
    ensures Continues(last, s, es, closed + Closings(s', first), Activities(now, first), After(s', first), rest)
  {
    RunsCompose(s', now, first, rest);
  }

  lemma NothingMore(last: Activity, s: seq<Timer<Fd>>, es: seq<Event>, closed: seq<Closing>,
                    now: Activity, s': seq<Timer<Fd>>)
    requires Continues(last, s, es, closed, now, s', [])
    ensures After(s, es) == s' && Activities(last, es) == now && Closings(s, es) == closed
  {
  }

  lemma FirstRound(rounds: seq<Round>, i: nat)
    requires i <= |rounds|
    ensures i == |rounds| ==> EventsOfRun(rounds[i..]) == []
    ensures i < |rounds| ==>
              var last := Terminated(rounds[i].wakeups);
              && EventsOfRun(rounds[i..]) ==
                   RoundEvents(rounds[i]) + (if last then [] else EventsOfRun(rounds[i + 1..]))
              && (StoppedBy(rounds, i + 1) <==> StoppedBy(rounds, i) || last)
              && (InRange(rounds) ==> forall w :: w in rounds[i].wakeups ==> InTableRange(w))
  {
    if i < |rounds| {
      assert rounds[i..][0] == rounds[i] && rounds[i..][1..] == rounds[i + 1..];
      assert Terminated(rounds[i].wakeups) ==> StoppedBy(rounds, i + 1);
    }
  }

  lemma RecordOfTick(last: Activity, s: seq<Timer<Fd>>, now: int)
    ensures Record(last, IdleModel.Expire(now)) == last - IdleAt(last, now)
    ensures Handle(s, IdleModel.Expire(now)) == Left(s, now)
  {
  }

  lemma TickAtEnd(s: seq<Timer<Fd>>, last: Activity, now: int)
    ensures var es := [IdleModel.Expire(now)];
            && (LegalRun(last, es) <==> IdleModel.Legal(last, es[0]))
            && After(s, es) == Handle(s, es[0]) && Activities(last, es) == Record(last, es[0])
            && Closings(s, es) == [Closing(now, IdsOf(Fired(s, now)))]
  {
    assert [IdleModel.Expire(now)][1..] == [];
  }

  lemma OneEvent(s: seq<Timer<Fd>>, last: Activity, w: Wakeup)
    requires LegalRun(last, EventOf(w))
    ensures EventOf(w) == [] ==> Activities(last, EventOf(w)) == last && After(s, EventOf(w)) == s
    ensures EventOf(w) != [] ==>
              && IdleModel.Legal(last, EventOf(w)[0])
              && Activities(last, EventOf(w)) == Record(last, EventOf(w)[0])
              && After(s, EventOf(w)) == Handle(s, EventOf(w)[0])
  {
    if EventOf(w) != [] {
      assert EventOf(w)[1..] == [];
    }
  }
}
