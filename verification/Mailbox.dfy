// The capped per-window mailbox between request handlers and the display
// thread.
module Mailbox {
  import opened Basics
  import opened Drawing
  import opened Coalesce
  import opened FrameBuffer

  const MAX_COMMANDS: nat := 4096

  // What happened to the mailbox: handlers post, the display thread drains.
  datatype Traffic = Posted(win: nat, commands: seq<Command>) | Drained(win: nat)

  // Everything posted to a window since it was last drained, in order.
  function Since(history: seq<Traffic>, win: nat): seq<Command> {
    if history == [] then []
    else
      var few, last := history[..|history| - 1], history[|history| - 1];
      if last.win != win then Since(few, win)
      else if last.Posted? then Since(few, win) + last.commands
      else []
  }

  function LastOf<T>(s: seq<T>, n: nat): (r: seq<T>)
    ensures |r| == Min(|s|, n)
  {
    if |s| <= n then s else s[|s| - n..]
  }

  lemma LastOfIs<T>(s: seq<T>, n: nat)
    ensures LastOf(s, n) == s[|s| - Min(|s|, n)..]
  {
  }

  // Dropping early and again later keeps what dropping once at the end would.
  lemma {:induction false} DropTwice<T>(a: seq<T>, b: seq<T>, n: nat)
    ensures LastOf(LastOf(a, n) + b, n) == LastOf(a + b, n)
  {
    if n < |a| {
      assert LastOf(a, n) + b == (a + b)[|a| - n..];
    }
  }

  lemma {:induction false} SinceNext(history: seq<Traffic>, t: Traffic, win: nat)
    ensures Since(history + [t], win) ==
      if t.win != win then Since(history, win)
      else if t.Posted? then Since(history, win) + t.commands else []
  {
    assert (history + [t])[..|history|] == history;
  }

  class RenderMailbox {
    var queues: map<nat, seq<Command>>
    ghost var history: seq<Traffic>

    function Pending(win: nat): seq<Command>
      reads this
    {
      if win in queues then queues[win] else []
    }

    // However posts and drains interleave, what is pending for a window is
    // the last 4096 of the commands posted to it since it was drained.
    ghost predicate Valid()
      reads this
    {
      forall win :: Pending(win) == LastOf(Since(history, win), MAX_COMMANDS)
    }

    constructor ()
      ensures Valid() && history == []
    {
      queues := map[];
      history := [];
    }

    // post_render_to_mailbox
    method Post(win: nat, commands: seq<Command>)
      requires Valid()
      modifies this
      ensures Valid() && history == old(history) + [Posted(win, commands)]
      ensures var all := Since(old(history), win) + commands;
        |Pending(win)| == Min(|all|, 4096) && Pending(win) == all[|all| - |Pending(win)|..]
    {
      hide Since, LastOf;
      var entry := Pending(win) + commands;
      Capped(entry);
      if |entry| > MAX_COMMANDS {
        var excess := |entry| - MAX_COMMANDS;
        entry := entry[excess..];
      }
      DropTwice(Since(history, win), commands, MAX_COMMANDS);
      LastOfIs(Since(history, win) + commands, MAX_COMMANDS);
      queues := queues[win := entry];
      history := history + [Posted(win, commands)];
      forall w ensures Pending(w) == LastOf(Since(history, w), MAX_COMMANDS) {
        SinceNext(old(history), Posted(win, commands), w);
        assert old(Pending(w)) == LastOf(Since(old(history), w), MAX_COMMANDS);
      }
    }

    // One window's turn in drain_render_mailbox: take the batch and leave an
    // empty one.
    method Drain(win: nat) returns (batch: seq<Command>)
      requires Valid()
      modifies this
      ensures Valid() && history == old(history) + [Drained(win)]
      ensures batch == LastOf(Since(old(history), win), MAX_COMMANDS)
      ensures var all := Since(old(history), win);
        |batch| == Min(|all|, 4096) && batch == all[|all| - |batch|..]
    {
      hide Since, LastOf;
      batch := Pending(win);
      NoneLeft();
      LastOfIs(Since(history, win), MAX_COMMANDS);
      if win in queues {
        queues := queues[win := []];
      }
      history := history + [Drained(win)];
      forall w ensures Pending(w) == LastOf(Since(history, w), MAX_COMMANDS) {
        SinceNext(old(history), Drained(win), w);
        assert old(Pending(w)) == LastOf(Since(old(history), w), MAX_COMMANDS);
      }
    }
  }

  lemma Capped(entry: seq<Command>)
    ensures LastOf(entry, MAX_COMMANDS) == if |entry| > MAX_COMMANDS then entry[|entry| - MAX_COMMANDS..] else entry
  {
  }

  lemma NoneLeft()
    ensures LastOf<Command>([], MAX_COMMANDS) == []
  {
  }

  // The display thread: drain, coalesce, render. When the last full image of
  // the batch covers the window, the surface ends up as if every pending
  // command had been rendered.
  method DrainToSurface(mailbox: RenderMailbox, win: nat, surface: Surface)
    requires mailbox.Valid() && surface.Valid()
    modifies mailbox, surface.data
    ensures mailbox.Valid() && mailbox.history == old(mailbox.history) + [Drained(win)]
    ensures var posted := LastOf(Since(old(mailbox.history), win), MAX_COMMANDS);
      var last := LastFull(surface.f, posted);
      (last.Some? ==> Covers(surface.f, posted[last.value])) ==>
        surface.Pic() == RenderAll(surface.f, posted, old(surface.Pic()))
  {
    var batch := mailbox.Drain(win);
    surface.RenderBatch(batch);
  }
}
