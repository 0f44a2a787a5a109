/** The pattern strategy the scanner drives. Its own search code is not
    part of this model: a strategy is described by its pattern of literal and
    wildcard bytes, and `scan_all` by the offsets at which that pattern
    matches, visited in ascending order. */
module Pattern {
  import opened Os

  /** One pattern position: a literal byte, or a wildcard that matches any byte. */
  datatype Token = Byte(value: byte) | Wildcard

  predicate TokenMatches(t: Token, b: byte) {
    t.Wildcard? || t.value == b
  }

  /** The pattern lies wholly inside `buf` from offset `i` and every
      position matches. */
  predicate MatchesAt(pattern: seq<Token>, buf: seq<byte>, i: nat) {
    i + |pattern| <= |buf| && forall k | 0 <= k < |pattern| :: TokenMatches(pattern[k], buf[i + k])
  }

  predicate StrictlyAscending(s: seq<nat>) {
    forall i, j | 0 <= i < j < |s| :: s[i] < s[j]
  }

  /** The match offsets of `pattern` in `buf` from offset `i` on, ascending. */
  function MatchesFrom(pattern: seq<Token>, buf: seq<byte>, i: nat): (hits: seq<nat>)
    ensures forall j | j in hits :: i <= j && MatchesAt(pattern, buf, j)
    ensures forall j | i <= j && MatchesAt(pattern, buf, j) :: j in hits
    ensures StrictlyAscending(hits)
    decreases |buf| - i
  {
    if i + |pattern| > |buf| then []
    else
      var rest := MatchesFrom(pattern, buf, i + 1);
      if MatchesAt(pattern, buf, i) then
        assert forall k | 0 <= k < |rest| :: i < rest[k] by {
          forall k | 0 <= k < |rest| ensures i < rest[k] {
            assert rest[k] in rest;
          }
        }
        [i] + rest
      else rest
  }

  /** A strategy built for one pattern. */
  datatype Scanner = Scanner(pattern: seq<Token>) {

    /** `is_ready()`: a strategy with an empty pattern cannot scan. */
    predicate IsReady() {
      |pattern| > 0
    }

    /** `pattern_size()`. */
    function PatternSize(): nat {
      |pattern|
    }

    /** `scan_all(region, callback)`: the offsets the callback is handed,
        in the order it is handed them. */
    function ScanAll(buf: seq<byte>): (hits: seq<nat>)
      ensures forall j :: j in hits <==> MatchesAt(pattern, buf, j)
      ensures StrictlyAscending(hits)
      ensures forall j | j in hits :: j + PatternSize() <= |buf|
    {
      MatchesFrom(pattern, buf, 0)
    }
  }
}
