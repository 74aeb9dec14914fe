/** The broker of the two-player race (python/server.py): it admits at
    most two players, announces the start when the second arrives,
    relays every snapshot to everyone, and announces the end once every
    online player has reported a finished race. */
module Server {

  /** What the broker broadcasts, in the order it broadcasts it. */
  datatype Signal<Data> = StartGame | Relay(data: Data) | StopRace

  /** The number of start announcements in a broadcast log. */
  function Starts<Data>(log: seq<Signal<Data>>): (n: nat)
    ensures n <= |log|
  {
    if |log| == 0 then 0
    else Starts(log[..|log| - 1]) + (if log[|log| - 1].StartGame? then 1 else 0)
  }

  lemma StartsSnoc<Data>(log: seq<Signal<Data>>, s: Signal<Data>)
    ensures Starts(log + [s]) == Starts(log) + (if s.StartGame? then 1 else 0)
  {
    assert (log + [s])[..|log|] == log;
  }

  class Broker<Data> {
    var playersOnline: int
    var racesOver: set<string>
    var stopped: bool
    /** Everything broadcast so far. */
    var log: seq<Signal<Data>>

    /** At most two players; the start is announced exactly once, when the
        second one is admitted; the broker stops only with the end
        announced and every online player's finish recorded. */
    ghost predicate Valid()
      reads this
    {
      && 0 <= playersOnline <= 2
      && Starts(log) == (if playersOnline == 2 then 1 else 0)
      && (stopped ==> |racesOver| == playersOnline && |log| > 0 && log[|log| - 1] == StopRace)
    }

    constructor ()
      ensures Valid() && playersOnline == 0 && racesOver == {} && !stopped && log == []
    {
      playersOnline := 0;
      racesOver := {};
      stopped := false;
      log := [];
    }

    /** `connect`: a third player is refused and nothing changes; otherwise
        the count grows, and reaching two announces the start. */
    method Connect() returns (admitted: bool)
      requires Valid() && !stopped
      modifies this
      ensures Valid() && racesOver == old(racesOver) && stopped == old(stopped)
      ensures admitted <==> old(playersOnline) < 2
      ensures !admitted ==> playersOnline == old(playersOnline) && log == old(log)
      ensures admitted ==> playersOnline == old(playersOnline) + 1
      ensures admitted ==> log == old(log) + (if playersOnline == 2 then [StartGame] else [])
    {
      if playersOnline == 2 {
        return false;
      }
      playersOnline := playersOnline + 1;
      if playersOnline == 2 {
        StartsSnoc(log, StartGame);
        log := log + [StartGame];
      }
      return true;
    }

    /** `message`: the snapshot is relayed to everyone, the sender included. */
    method Message(data: Data)
      requires Valid() && !stopped
      modifies this
      ensures Valid() && log == old(log) + [Relay(data)]
      ensures playersOnline == old(playersOnline) && racesOver == old(racesOver) && !stopped
    {
      StartsSnoc(log, Relay(data));
      log := log + [Relay(data)];
    }

    /** `race_over`: the id joins the finished set; once the set is as
        large as the number of online players the end is announced and
        the broker stops. */
    method RaceOver(id: string)
      requires Valid() && !stopped
      modifies this
      ensures Valid() && playersOnline == old(playersOnline)
      ensures racesOver == old(racesOver) + {id}
      ensures stopped <==> |racesOver| == playersOnline
      ensures log == old(log) + (if stopped then [StopRace] else [])
    {
      racesOver := racesOver + {id};
      if |racesOver| == playersOnline {
        StartsSnoc(log, StopRace);
        log := log + [StopRace];
        stopped := true;
      }
    }

    /** `force_stop`: the end is announced, but the broker keeps running
        and remembers no finish. */
    method ForceStop()
      requires Valid() && !stopped
      modifies this
      ensures Valid() && log == old(log) + [StopRace]
      ensures playersOnline == old(playersOnline) && racesOver == old(racesOver) && !stopped
    {
      StartsSnoc(log, StopRace);
      log := log + [StopRace];
    }
  }

  /** Two players connect, one snapshot is relayed, a third player is
      refused and both players finish: the start, the snapshot and the
      end are broadcast in that order, and the broker stops. */
  method TwoPlayerRace<Data>(snapshot: Data, first: string, second: string)
    returns (log: seq<Signal<Data>>, thirdAdmitted: bool, stopped: bool)
    requires first != second
    ensures log == [StartGame, Relay(snapshot), StopRace]
    ensures !thirdAdmitted && stopped
  {
    var b := new Broker<Data>();
    var a1 := b.Connect();
    var a2 := b.Connect();
    b.Message(snapshot);
    thirdAdmitted := b.Connect();
    b.RaceOver(first);
    b.RaceOver(second);
    log, stopped := b.log, b.stopped;
  }

  /** Finishes are remembered by id: the same player reporting twice does
      not end a two-player race. */
  method SameFinishTwice<Data>(id: string) returns (log: seq<Signal<Data>>, stopped: bool)
    ensures log == [StartGame] && !stopped
  {
    var b := new Broker<Data>();
    var a1 := b.Connect();
    var a2 := b.Connect();
    b.RaceOver(id);
    b.RaceOver(id);
    log, stopped := b.log, b.stopped;
  }

  /** A forced stop announces the end but leaves the broker running, so
      the players' own finishes still end it and the end is announced a
      second time. */
  method ForcedThenFinished<Data>(first: string, second: string)
    returns (log: seq<Signal<Data>>, stopped: bool)
    requires first != second
    ensures log == [StartGame, StopRace, StopRace] && stopped
  {
    var b := new Broker<Data>();
    var a1 := b.Connect();
    var a2 := b.Connect();
    b.ForceStop();
    b.RaceOver(first);
    b.RaceOver(second);
    log, stopped := b.log, b.stopped;
  }
}
