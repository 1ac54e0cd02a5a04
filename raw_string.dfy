/**
 * The text `toRawString` builds: one line per array index, the index, a colon, and the
 * values the slot's chain yields head to tail, each followed by a space and the whole
 * ended by "null"; a null slot shows just "null".
 */
module RawString {
  import opened Wrappers
  import opened ChainSpec
  import opened Buckets

  /** `StringBuilder.append(String)`: a null reference appends "null". */
  function Text(v: Option<string>): string {
    if v.Some? then v.value else "null"
  }

  /** Every value, each followed by one space. */
  function Words(vals: seq<Option<string>>): string {
    if vals == [] then "" else Words(vals[..|vals| - 1]) + Text(vals[|vals| - 1]) + " "
  }

  /** The character of a decimal digit. */
  function Digit(d: int): char
    requires 0 <= d < 10
  {
    ('0' as int + d) as char
  }

  /** `StringBuilder.append(int)` for a non-negative value: its decimal digits, most significant first. */
  function Decimal(n: nat): string {
    if n < 10 then [Digit(n)] else Decimal(n / 10) + [Digit(n % 10)]
  }

  /** Reading decimal digits back as a number. */
  function DecimalValue(s: string): int {
    if s == [] then 0 else DecimalValue(s[..|s| - 1]) * 10 + (s[|s| - 1] as int - '0' as int)
  }

  /** The index a line starts with can be read back. */
  lemma {:induction false} DecimalRoundTrip(n: nat)
    ensures DecimalValue(Decimal(n)) == n
    ensures Decimal(n) != [] && forall k :: 0 <= k < |Decimal(n)| ==> '0' <= Decimal(n)[k] <= '9'
  {
    if n >= 10 {
      DecimalRoundTrip(n / 10);
      var s := Decimal(n);
      assert s[..|s| - 1] == Decimal(n / 10);
    }
  }

  /** What follows the colon for one slot. */
  function SlotText(slot: Slot): string {
    match slot
    case None => "null"
    case Some(chain) => Words(NodeData(chain)) + "null"
  }

  /** The line of slot `i`. */
  function RawLine(i: nat, slot: Slot): string {
    Decimal(i) + ": " + SlotText(slot) + "\n"
  }

  /** One line per slot, numbered by index. */
  function Lines(slots: seq<Slot>): (r: seq<string>)
    ensures |r| == |slots| && forall i :: 0 <= i < |slots| ==> r[i] == RawLine(i, slots[i])
  {
    seq(|slots|, i requires 0 <= i < |slots| => RawLine(i, slots[i]))
  }

  /** Lines written one after another. */
  function Concat(lines: seq<string>): string {
    if lines == [] then "" else Concat(lines[..|lines| - 1]) + lines[|lines| - 1]
  }

  /** The whole text of `toRawString`. */
  function RawTable(slots: seq<Slot>): string {
    Concat(Lines(slots))
  }

  /** Writing one line more. */
  lemma ConcatPrefix(lines: seq<string>, i: int)
    requires 0 <= i < |lines|
    ensures Concat(lines[..i + 1]) == Concat(lines[..i]) + lines[i]
  {
    assert lines[..i + 1][..i] == lines[..i];
  }

  /** One value more, one word more. */
  lemma WordsSnoc(vals: seq<Option<string>>, v: Option<string>)
    ensures Words(vals + [v]) == Words(vals) + Text(v) + " "
  {
    assert (vals + [v])[..|vals|] == vals;
  }

  /** A line written piece by piece after the text so far. */
  lemma LineParts(text: string, i: nat, slot: Slot)
    ensures text + Decimal(i) + ": " + SlotText(slot) + "\n" == text + RawLine(i, slot)
  {
  }

  /** Writing the next value after the text so far. */
  lemma AppendWord(text: string, data: seq<Option<string>>, j: int)
    requires 0 <= j < |data|
    ensures text + Words(data[..j]) + Text(data[j]) + " " == text + Words(data[..j + 1])
  {
    assert data[..j + 1] == data[..j] + [data[j]];
    WordsSnoc(data[..j], data[j]);
  }

  /** A chain of one key. */
  lemma OneKeyLine(i: nat, a: string)
    ensures RawLine(i, Some([a])) == Decimal(i) + ": " + a + " null\n"
  {
    assert NodeData([a]) == [] + [Some(a)];
    WordsSnoc([], Some(a));
    assert "" + a + " " == a + " ";
  }

  /** A chain of two keys, head first. */
  lemma TwoKeyLine(i: nat, a: string, b: string)
    ensures RawLine(i, Some([a, b])) == Decimal(i) + ": " + a + " " + b + " null\n"
  {
    assert NodeData([a, b]) == ([] + [Some(a)]) + [Some(b)];
    WordsSnoc([], Some(a));
    WordsSnoc([] + [Some(a)], Some(b));
    assert "" + a + " " == a + " ";
  }

  /** An emptied chain still yields its null head, so its line reads "null null". */
  lemma EmptiedChainText(i: nat)
    ensures RawLine(i, Some([])) == Decimal(i) + ": null null\n"
  {
  }
}
