/**
 * The round count both transforms actually run for a requested r: the
 * outer loops make r/4 passes of four rounds each (rc6.c:132-133,
 * rc6.c:147-148, rc6.c:164-165, rc6.c:186-187).
 */
module RoundCount {
  function Rounds(r: nat): nat
  {
    4 * (r / 4)
  }
}
