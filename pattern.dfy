/**
  The character generator's pattern source: the fixed 95-character printable
  alphabet, the 72-character line that starts at a given rotation cursor, and
  the CR LF terminated line that goes on the wire.
 */
module Pattern {

  /** Characters per generated line, terminator excluded. */
  const LINE_LENGTH: nat := 72

  /** Length of the rotating alphabet. */
  const PATTERN_LENGTH_FULL: nat := 95

  /** Bytes per line on the wire: the line and its CR LF terminator. */
  const BYTES_PER_LINE: nat := LINE_LENGTH + 2

  /** The printable ASCII characters, space through tilde, in code-point order. */
  const CHARGEN_PATTERN_FULL: string :=
    " !\"#$%&'()*+,-./0123456789:;<=>?@ABCDEFGHIJKLMNOPQRSTUVWXYZ[\\]^_`abcdefghijklmnopqrstuvwxyz{|}~"

  /** A rotation cursor: an index into the alphabet. */
  predicate IsCursor(start: int) {
    0 <= start < PATTERN_LENGTH_FULL
  }

  /** The text of a line of `length` characters whose first character is alphabet entry `start`. */
  function LineAt(start: nat, length: nat): (r: string)
    ensures |r| == length
  {
    seq(length, i requires 0 <= i < length => CHARGEN_PATTERN_FULL[(start + i) % PATTERN_LENGTH_FULL])
  }

  /** One line as written to the socket: 72 pattern characters, then CR and LF. */
  function Line(start: nat): (r: string)
    ensures |r| == BYTES_PER_LINE
  {
    LineAt(start, LINE_LENGTH) + ['\r', '\n']
  }

  /** The first `k` lines of a connection: line j starts at offset j mod 95. */
  function Stream(k: nat): (r: string)
    ensures |r| == BYTES_PER_LINE * k
  {
    if k == 0 then [] else Stream(k - 1) + Line((k - 1) % PATTERN_LENGTH_FULL)
  }

  /** Every line is exactly 74 bytes: character i is alphabet entry (start + i) mod 95, then CR, LF. */
  lemma LineContents(start: nat)
    ensures forall i :: 0 <= i < LINE_LENGTH ==>
      Line(start)[i] == CHARGEN_PATTERN_FULL[(start + i) % PATTERN_LENGTH_FULL]
    ensures Line(start)[LINE_LENGTH] == '\r' && Line(start)[LINE_LENGTH + 1] == '\n'
  {
    var text := LineAt(start, LINE_LENGTH);
    assert Line(start) == text + ['\r', '\n'];
    assert forall i :: 0 <= i < LINE_LENGTH ==> Line(start)[i] == text[i];
  }

  /**
    Rotation by one position: the line that starts one cursor step later is the
    current line shifted left by one character, one new character appended.
   */
  lemma LineRotation(start: nat, length: nat)
    ensures LineAt((start + 1) % PATTERN_LENGTH_FULL, length) == LineAt(start, length + 1)[1..]
  {
    var a := LineAt((start + 1) % PATTERN_LENGTH_FULL, length);
    var b := LineAt(start, length + 1)[1..];
    forall i | 0 <= i < length
      ensures a[i] == b[i]
    {
      ModStep(start, i);
    }
  }

  /** The line only depends on the cursor modulo 95. */
  lemma LinePeriodic(start: nat, length: nat)
    ensures LineAt(start % PATTERN_LENGTH_FULL, length) == LineAt(start, length)
  {
    forall i | 0 <= i < length
      ensures LineAt(start % PATTERN_LENGTH_FULL, length)[i] == LineAt(start, length)[i]
    {
      ModAdd(start, i);
    }
  }

  lemma ModStep(start: nat, i: nat)
    ensures ((start + 1) % PATTERN_LENGTH_FULL + i) % PATTERN_LENGTH_FULL == (start + (i + 1)) % PATTERN_LENGTH_FULL
  {
    ModAdd(start + 1, i);
  }

  lemma ModAdd(a: nat, b: nat)
    ensures (a % PATTERN_LENGTH_FULL + b) % PATTERN_LENGTH_FULL == (a + b) % PATTERN_LENGTH_FULL
  {
    var q := a / PATTERN_LENGTH_FULL;
    assert a == q * PATTERN_LENGTH_FULL + a % PATTERN_LENGTH_FULL;
    assert a + b == q * PATTERN_LENGTH_FULL + (a % PATTERN_LENGTH_FULL + b);
  }

  /**
    The wire format of a connection's first k lines: 74 bytes per line, line j
    holding alphabet entries (j + i) mod 95 for i < 72 followed by CR LF.
   */
  lemma StreamAt(k: nat, j: nat, i: nat)
    requires j < k && i < BYTES_PER_LINE
    ensures i < LINE_LENGTH ==> Stream(k)[BYTES_PER_LINE * j + i] == CHARGEN_PATTERN_FULL[(j + i) % PATTERN_LENGTH_FULL]
    ensures i == LINE_LENGTH ==> Stream(k)[BYTES_PER_LINE * j + i] == '\r'
    ensures i == LINE_LENGTH + 1 ==> Stream(k)[BYTES_PER_LINE * j + i] == '\n'
  {
    StreamPrefix(j + 1, k);
    LastLineAt(j, i);
    var n := BYTES_PER_LINE * j + i;
    assert Stream(k)[..|Stream(j + 1)|][n] == Stream(k)[n];
    var line := Line(j % PATTERN_LENGTH_FULL);
    assert Stream(k)[n] == line[i];
    if i < LINE_LENGTH {
      assert line[i] == LineAt(j % PATTERN_LENGTH_FULL, LINE_LENGTH)[i];
      ModAdd(j, i);
    }
  }

  /** Byte i of line j sits at offset 74 * j + i of the first j + 1 lines. */
  lemma LastLineAt(j: nat, i: nat)
    requires i < BYTES_PER_LINE
    ensures |Stream(j + 1)| == BYTES_PER_LINE * (j + 1)
    ensures Stream(j + 1)[BYTES_PER_LINE * j + i] == Line(j % PATTERN_LENGTH_FULL)[i]
  {
    LineContents(j % PATTERN_LENGTH_FULL);
  }

  /** Earlier lines are never rewritten: the first j lines are a prefix of the first k. */
  lemma {:induction false} StreamPrefix(j: nat, k: nat)
    requires j <= k
    ensures |Stream(j)| <= |Stream(k)| && Stream(k)[..|Stream(j)|] == Stream(j)
  {
    if j < k {
      StreamPrefix(j, k - 1);
      assert Stream(k) == Stream(k - 1) + Line((k - 1) % PATTERN_LENGTH_FULL);
      assert Stream(k)[..|Stream(j)|] == Stream(k - 1)[..|Stream(j)|];
    }
  }
}
