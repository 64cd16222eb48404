/**
 * hooks/use-timer.ts: the elapsed-time counter behind the guide's clock.
 *
 * Its state is two cells, the seconds counted so far and whether the clock
 * runs. While it runs, an interval adds one second per firing; stopping it
 * clears the interval, so a firing only ever happens while it runs. That
 * firing is the method `Tick`.
 */
module UseTimer {

  class Timer {
    /** Seconds counted so far. */
    var time: nat
    /** Whether the one-second interval is installed. */
    var isRunning: bool

    /** A fresh timer: no time counted, stopped. */
    constructor()
      ensures time == 0 && !isRunning
    {
      time := 0;
      isRunning := false;
    }

    /** startTimer: runs from now on and keeps the time; a second call changes nothing more. */
    method Start()
      modifies this
      ensures isRunning && time == old(time)
    {
      isRunning := true;
    }

    /** pauseTimer: stops and keeps the time. */
    method Pause()
      modifies this
      ensures !isRunning && time == old(time)
    {
      isRunning := false;
    }

    /** resetTimer: stopped, at zero, whatever the state before. */
    method Reset()
      modifies this
      ensures !isRunning && time == 0
    {
      isRunning := false;
      time := 0;
    }

    /** One firing of the interval, which exists only while the timer runs: one more second. */
    method Tick()
      requires isRunning
      modifies this
      ensures isRunning && time == old(time) + 1
    {
      time := time + 1;
    }
  }
}
