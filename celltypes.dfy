/** The level format's symbol table and its three character classes. */
module CellTypes {

  const AIR: char := ' '
  const WATER: char := '~'
  const GROUND: char := '='
  const BUTTON: char := '*'
  const ONGROUND: char := '%'
  const OFFGROUND: char := '@'
  const H_CONNECTOR: char := '-'
  const H_BOUNDARY: char := '/'
  const V_CONNECTOR: char := '|'
  const V_BOUNDARY: char := '_'
  const CHECKPOINT: char := '^'

  /** The named symbols of the table. */
  const SYMBOLS: seq<char> :=
    [AIR, WATER, GROUND, BUTTON, ONGROUND, OFFGROUND,
     H_CONNECTOR, H_BOUNDARY, V_CONNECTOR, V_BOUNDARY, CHECKPOINT]

  /** A regular-expression search for the class [lo-hi]: some character of c lies in the range. */
  function MatchesRange(c: string, lo: char, hi: char): (found: bool)
    ensures found <==> exists i :: 0 <= i < |c| && lo <= c[i] <= hi
  {
    if |c| == 0 then false
    else if lo <= c[0] <= hi then true
    else
      var rest := MatchesRange(c[1..], lo, hi);
      assert rest <==> exists i :: 1 <= i < |c| && lo <= c[i] <= hi by {
        if rest {
          var i :| 0 <= i < |c[1..]| && lo <= c[1..][i] <= hi;
          assert lo <= c[i + 1] <= hi;
        }
      }
      rest
  }

  /** A key is marked by a lowercase letter anywhere in the cell text. */
  function IsKey(c: string): (b: bool)
    ensures b <==> exists i :: 0 <= i < |c| && 'a' <= c[i] <= 'z'
  {
    MatchesRange(c, 'a', 'z')
  }

  /** A lock is marked by an uppercase letter anywhere in the cell text. */
  function IsLock(c: string): (b: bool)
    ensures b <==> exists i :: 0 <= i < |c| && 'A' <= c[i] <= 'Z'
  {
    MatchesRange(c, 'A', 'Z')
  }

  /** A portal is marked by a digit anywhere in the cell text. */
  function IsPortal(c: string): (b: bool)
    ensures b <==> exists i :: 0 <= i < |c| && '0' <= c[i] <= '9'
  {
    MatchesRange(c, '0', '9')
  }

  /** On a single cell the three classes are exactly a-z, A-Z and 0-9. */
  lemma SingleCellClasses(ch: char)
    ensures IsKey([ch]) <==> 'a' <= ch <= 'z'
    ensures IsLock([ch]) <==> 'A' <= ch <= 'Z'
    ensures IsPortal([ch]) <==> '0' <= ch <= '9'
  {
    assert [ch][0] == ch;
  }

  /** No cell is more than one of key, lock and portal. */
  lemma ClassesDisjoint(ch: char)
    ensures !(IsKey([ch]) && IsLock([ch]))
    ensures !(IsKey([ch]) && IsPortal([ch]))
    ensures !(IsLock([ch]) && IsPortal([ch]))
  {
    SingleCellClasses(ch);
  }

  /** None of the named symbols is a key, a lock or a portal. */
  lemma SymbolsAreNotClassed(k: nat)
    requires k < |SYMBOLS|
    ensures !IsKey([SYMBOLS[k]]) && !IsLock([SYMBOLS[k]]) && !IsPortal([SYMBOLS[k]])
  {
    SingleCellClasses(SYMBOLS[k]);
  }
}
