/** The millisecond heartbeat: ticks counted by an interrupt, processed one at a time by
    the main loop, and the schedules derived from them. */
module Heartbeat {
  import opened Words

  datatype Beat = Beat(ms: byte, alive: u32, c10: byte, c100: byte, c1s: u16)

  function TickOf(b: Beat): Beat {
    b.(ms := (b.ms + 1) % 0x100, alive := (b.alive + 1) % 0x1_0000_0000)
  }

  function Processed(b: Beat): Beat {
    if b.ms == 0 then b
    else b.(ms := b.ms - 1, c1s := (b.c1s + 1) % 0x1_0000, c10 := (b.c10 + 1) % 0x100, c100 := (b.c100 + 1) % 0x100)
  }

  class Heartbeat {
    var msCounter: byte
    var aliveCounter: u32
    var count10ms: byte
    var count100ms: byte
    var count1s: u16

    constructor ()
      ensures Now() == Beat(0, 0, 0, 0, 0)
    {
      msCounter, aliveCounter, count10ms, count100ms, count1s := 0, 0, 0, 0, 0;
    }

    function Now(): Beat
      reads this
    {
      Beat(msCounter, aliveCounter, count10ms, count100ms, count1s)
    }

    method Tick()
      modifies this
      ensures Now() == TickOf(old(Now()))
    {
      msCounter := (msCounter + 1) % 0x100;
      aliveCounter := (aliveCounter + 1) % 0x1_0000_0000;
    }

    method Run() returns (result: bool)
      modifies this
      ensures Now() == Processed(old(Now())) && result == (old(msCounter) != 0)
    {
      result := false;
      if msCounter != 0 {
        msCounter := msCounter - 1;
        count1s := (count1s + 1) % 0x1_0000;
        count10ms := (count10ms + 1) % 0x100;
        count100ms := (count100ms + 1) % 0x100;
        result := true;
      }
    }

    method Is10ms() returns (due: bool)
      modifies this`count10ms
      ensures due == (old(count10ms) >= 10) && count10ms == if due then 0 else old(count10ms)
    {
      if count10ms >= 10 {
        count10ms := 0;
        return true;
      }
      return false;
    }

    method Is1s() returns (due: bool)
      modifies this`count1s
      ensures due == (old(count1s) >= 1000) && count1s == if due then 0 else old(count1s)
    {
      if count1s >= 1000 {
        count1s := 0;
        return true;
      }
      return false;
    }
  }
}
