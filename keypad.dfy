/**
 * The two key tables of c25-pc.c and the loop steps that use them.
 *
 * The encode direction turns a key typed on the PC into the code sent to the
 * DSP board: the key's value read as a hexadecimal digit, with `*` and `#`
 * standing for 0xE and 0xF. The decode direction turns a byte from the board
 * into the key it names by its place on the keypad
 *
 *     1 2 3 A
 *     4 5 6 B
 *     7 8 9 C
 *     * 0 # D
 *
 * as 16 * row + column, except that the board sends 0x55 for row 0, column 0.
 * The two directions therefore do not invert each other.
 */
module Keypad {
  import opened Wrappers

  const ESC: char := 27 as char

  /** The sixteen keys of the keypad. */
  const Keys: set<char> := {'0', '1', '2', '3', '4', '5', '6', '7', '8', '9', 'A', 'B', 'C', 'D', '*', '#'}

  const Layout: seq<seq<char>> := [
    ['1', '2', '3', 'A'],
    ['4', '5', '6', 'B'],
    ['7', '8', '9', 'C'],
    ['*', '0', '#', 'D']]

  /** Turbo C's strupr on one character: lower-case letters become upper case. */
  function Upper(k: char): (u: char)
    ensures !('a' <= u <= 'z')
    ensures u != k ==> 'a' <= k <= 'z' && u as int == k as int - 32
  {
    if 'a' <= k <= 'z' then (k as int - 32) as char else k
  }

  /** The switch in encode: the code SendChar takes for the key `k`, or None when no case matches. */
  function KeyCode(k: char): (code: Option<int>)
    ensures code.Some? <==> Upper(k) in Keys
    ensures code.Some? ==> 0 <= code.value < 16
  {
    match Upper(k)
    case '0' => Some(0x00)
    case '1' => Some(0x01)
    case '2' => Some(0x02)
    case '3' => Some(0x03)
    case '4' => Some(0x04)
    case '5' => Some(0x05)
    case '6' => Some(0x06)
    case '7' => Some(0x07)
    case '8' => Some(0x08)
    case '9' => Some(0x09)
    case 'A' => Some(0x0A)
    case 'B' => Some(0x0B)
    case 'C' => Some(0x0C)
    case 'D' => Some(0x0D)
    case '*' => Some(0x0E)
    case '#' => Some(0x0F)
    case _ => None
  }

  /** The switch in decode: the key named by the value getccb returned, or None when no case matches. */
  function KeyOfByte(ch: int): (key: Option<char>)
    ensures key.Some? ==> key.value in Keys
  {
    match ch
    case 85 => Some('1')
    case 1 => Some('2')
    case 2 => Some('3')
    case 3 => Some('A')
    case 16 => Some('4')
    case 17 => Some('5')
    case 18 => Some('6')
    case 19 => Some('B')
    case 32 => Some('7')
    case 33 => Some('8')
    case 34 => Some('9')
    case 35 => Some('C')
    case 48 => Some('*')
    case 49 => Some('0')
    case 50 => Some('#')
    case 51 => Some('D')
    case _ => None
  }

  /** The byte the board sends for the key at `row`, `col` of the keypad. */
  function WireByte(row: int, col: int): (ch: int)
    requires 0 <= row < 4 && 0 <= col < 4
  {
    if row == 0 && col == 0 then 0x55 else 16 * row + col
  }

  /**
   * Independent reading of the encode table: a key's code is its value as a
   * hexadecimal digit, with `*` and `#` taking the places of E and F.
   */
  function HexValue(k: char): (v: Option<int>)
  {
    if '0' <= k <= '9' then Some(k as int - '0' as int)
    else if 'A' <= k <= 'D' then Some(k as int - 'A' as int + 10)
    else if k == '*' then Some(14)
    else if k == '#' then Some(15)
    else None
  }

  /** The key whose code is `c`: the inverse of HexValue on the sixteen codes. */
  function HexKey(c: int): (k: char)
    requires 0 <= c < 16
  {
    if c < 10 then ('0' as int + c) as char
    else if c < 14 then ('A' as int + c - 10) as char
    else if c == 14 then '*'
    else '#'
  }

  lemma KeyCodeIsHexValue(k: char)
    ensures KeyCode(k) == HexValue(Upper(k))
  {
  }

  /** Every one of the sixteen codes is sent for exactly one key (up to case). */
  lemma {:induction false} EncodeBijective(c: int, k: char)
    requires 0 <= c < 16
    ensures HexKey(c) in Keys && KeyCode(HexKey(c)) == Some(c)
    ensures KeyCode(k) == Some(c) ==> Upper(k) == HexKey(c)
  {
    KeyCodeIsHexValue(k);
    KeyCodeIsHexValue(HexKey(c));
  }

  /** Lower-case letters send the code of their upper-case key. */
  lemma EncodeIgnoresCase(k: char)
    requires 'a' <= k <= 'd'
    ensures KeyCode(k) == KeyCode((k as int - 32) as char)
  {
  }

  /** The decode table follows the keypad layout. */
  lemma {:induction false} DecodeFollowsLayout(row: int, col: int)
    requires 0 <= row < 4 && 0 <= col < 4
    ensures KeyOfByte(WireByte(row, col)) == Some(Layout[row][col])
  {
    assert row == 0 || row == 1 || row == 2 || row == 3;
    assert col == 0 || col == 1 || col == 2 || col == 3;
  }

  /** The decode table knows no other bytes: each known byte is the wire byte of its key's place. */
  lemma {:induction false} DecodeOnlyLayout(ch: int)
    requires KeyOfByte(ch).Some?
    ensures ch == 0x55 || (0 <= ch < 64 && ch % 16 < 4)
    ensures var row, col := if ch == 0x55 then 0 else ch / 16, if ch == 0x55 then 0 else ch % 16;
      0 <= row < 4 && 0 <= col < 4 && WireByte(row, col) == ch && Layout[row][col] == KeyOfByte(ch).value
  {
    if ch != 0x55 {
      DecodeFollowsLayout(ch / 16, ch % 16);
    }
  }

  /** Sixteen distinct bytes name sixteen distinct keys. */
  lemma DecodeInjective(a: int, b: int)
    requires KeyOfByte(a).Some? && KeyOfByte(a) == KeyOfByte(b)
    ensures a == b
  {
  }

  /** The keys decode can print are exactly the keys encode accepts. */
  lemma {:induction false} DecodeKeysAreEncodeKeys()
    ensures (set ch | 0 <= ch < 256 && KeyOfByte(ch).Some? :: KeyOfByte(ch).value) == Keys
    ensures (iset k | KeyCode(k).Some? :: Upper(k)) == iset k | k in Keys
  {
    var decoded := set ch | 0 <= ch < 256 && KeyOfByte(ch).Some? :: KeyOfByte(ch).value;
    forall k | k in Keys
      ensures k in decoded
    {
      var row, col :| 0 <= row < 4 && 0 <= col < 4 && Layout[row][col] == k by {
        LayoutHoldsKeys(k);
      }
      DecodeFollowsLayout(row, col);
      assert KeyOfByte(WireByte(row, col)).value == k;
    }
    forall k | k in Keys
      ensures k in iset c | KeyCode(c).Some? :: Upper(c)
    {
      assert KeyCode(k).Some? && Upper(k) == k;
    }
  }

  lemma {:induction false} LayoutHoldsKeys(k: char)
    requires k in Keys
    ensures exists row, col :: 0 <= row < 4 && 0 <= col < 4 && Layout[row][col] == k
  {
    if k in Layout[0] {
      var col :| 0 <= col < 4 && Layout[0][col] == k;
      assert Layout[0][col] == k;
    } else if k in Layout[1] {
      var col :| 0 <= col < 4 && Layout[1][col] == k;
      assert Layout[1][col] == k;
    } else if k in Layout[2] {
      var col :| 0 <= col < 4 && Layout[2][col] == k;
      assert Layout[2][col] == k;
    } else {
      assert k in Layout[3];
      var col :| 0 <= col < 4 && Layout[3][col] == k;
      assert Layout[3][col] == k;
    }
  }

  /** What one pass of the encode loop does with the key read: stop on ESC, otherwise send a code. */
  datatype EncodeAction = Quit | Send(code: int)

  /**
   * One pass of the encode loop's switch. `sendChar` is what SendChar still
   * holds from the pass before (indeterminate before the first): a key that
   * matches no case sends it again.
   */
  function EncodeStep(sendChar: int, k: char): (a: EncodeAction)
    ensures a.Quit? <==> k == ESC
    ensures a.Send? && KeyCode(k).Some? ==> a.code == KeyCode(k).value
    ensures a.Send? && KeyCode(k).None? ==> a.code == sendChar
  {
    if Upper(k) == ESC then Quit
    else Send(KeyCode(k).GetOr(sendChar))
  }

  /**
   * One pass of the decode loop's output: nothing when getccb returned EMPTY
   * (-1); otherwise the key the byte names, or, for a byte the table does not
   * know, the key printed last (indeterminate before the first).
   */
  function DecodeStep(key: char, ch: int): (shown: Option<char>)
    ensures shown.None? <==> ch == -1
    ensures KeyOfByte(ch).Some? ==> shown == KeyOfByte(ch)
    ensures ch != -1 && KeyOfByte(ch).None? ==> shown == Some(key)
  {
    if ch == -1 then None else Some(KeyOfByte(ch).GetOr(key))
  }

  /** Everything the decode loop prints for the successive values getccb returned. */
  function Shown(key: char, chs: seq<int>): (shown: seq<char>)
    ensures |shown| <= |chs|
    decreases |chs|
  {
    if chs == [] then []
    else
      var out := DecodeStep(key, chs[0]);
      ToSeq(out) + Shown(out.GetOr(key), chs[1..])
  }

  /** Every printed key is a keypad key, unless a byte the table does not know came before any it knows. */
  lemma {:induction false} ShownKeys(key: char, chs: seq<int>)
    ensures forall i :: 0 <= i < |Shown(key, chs)| ==> Shown(key, chs)[i] in Keys + {key}
    decreases |chs|
  {
    if chs != [] {
      var out := DecodeStep(key, chs[0]);
      var next := out.GetOr(key);
      ShownKeys(next, chs[1..]);
      assert next in Keys + {key};
    }
  }

  /** Without stale values: when every value is a byte of the table, each prints its own key. */
  lemma {:induction false} ShownTable(key: char, chs: seq<int>)
    requires forall i :: 0 <= i < |chs| ==> KeyOfByte(chs[i]).Some?
    ensures |Shown(key, chs)| == |chs|
    ensures forall i :: 0 <= i < |chs| ==> Shown(key, chs)[i] == KeyOfByte(chs[i]).value
    decreases |chs|
  {
    if chs != [] {
      var out := DecodeStep(key, chs[0]);
      ShownTable(out.GetOr(key), chs[1..]);
      forall i | 1 <= i < |chs|
        ensures Shown(key, chs)[i] == KeyOfByte(chs[i]).value
      {
        assert chs[1..][i - 1] == chs[i];
      }
    }
  }
}
