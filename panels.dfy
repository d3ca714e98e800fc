/**
 * The 18 detector panels of the instrument, named by a column digit 1..6
 * followed by a row digit 1..3, in the order `makeLite` visits them.
 */
module DetectorPanels {
  import opened PyInt

  const Columns: int := 6
  const Rows: int := 3

  /** The n-th panel name: `str(i) + str(j)` with i = n div 3 + 1, j = n mod 3 + 1. */
  function PanelName(n: int): string
    requires 0 <= n < Columns * Rows
  {
    IntToString(n / Rows + 1) + IntToString(n % Rows + 1)
  }

  /** The panel list, in loop order. */
  function Panels(): seq<string> {
    seq(Columns * Rows, n requires 0 <= n < Columns * Rows => PanelName(n))
  }

  /** Builds the panel list with the two nested loops of `makeLite`. */
  method PanelNames() returns (detpanel: seq<string>)
    ensures detpanel == Panels()
  {
    detpanel := [];
    for i := 1 to 7
      invariant detpanel == Panels()[..(i - 1) * Rows]
    {
      for j := 1 to 4
        invariant detpanel == Panels()[..(i - 1) * Rows + (j - 1)]
      {
        ghost var n := (i - 1) * Rows + (j - 1);
        assert n / Rows + 1 == i && n % Rows + 1 == j;
        assert Panels()[..n + 1] == Panels()[..n] + [PanelName(n)];
        detpanel := detpanel + [IntToString(i) + IntToString(j)];
      }
    }
  }

  lemma SingleDigit(d: int)
    requires 0 <= d < 10
    ensures IntToString(d) == [DigitChar(d)]
  {
  }

  /** Each name is two characters: a column digit 1..6 and a row digit 1..3. */
  lemma PanelNameShape(n: int)
    requires 0 <= n < Columns * Rows
    ensures PanelName(n) == [DigitChar(n / Rows + 1), DigitChar(n % Rows + 1)]
    ensures |PanelName(n)| == 2 && '1' <= PanelName(n)[0] <= '6' && '1' <= PanelName(n)[1] <= '3'
  {
    SingleDigit(n / Rows + 1);
    SingleDigit(n % Rows + 1);
  }

  /** A panel name is exactly a column digit 1..6 followed by a row digit 1..3. */
  predicate IsPanelName(name: string) {
    |name| == 2 && '1' <= name[0] <= '6' && '1' <= name[1] <= '3'
  }

  /**
   * The list has 18 entries, from "11" to "63", each a panel name, every panel
   * name occurs in it, and the names come in strictly increasing order
   * (column first, then row), so no panel is visited twice.
   */
  lemma PanelsFacts()
    ensures |Panels()| == 18 && Panels()[0] == "11" && Panels()[17] == "63"
    ensures forall name :: name in Panels() <==> IsPanelName(name)
    ensures forall a, b :: 0 <= a < b < |Panels()| ==>
      Panels()[a][0] < Panels()[b][0] || (Panels()[a][0] == Panels()[b][0] && Panels()[a][1] < Panels()[b][1])
    ensures forall a, b :: 0 <= a < b < |Panels()| ==> Panels()[a] != Panels()[b]
  {
    var ps := Panels();
    forall n | 0 <= n < |ps| ensures ps[n] == [DigitChar(n / Rows + 1), DigitChar(n % Rows + 1)] {
      PanelNameShape(n);
    }
    PanelNameShape(0);
    PanelNameShape(17);
    forall name | IsPanelName(name) ensures name in ps {
      var i, j := name[0] as int - '1' as int, name[1] as int - '1' as int;
      var n := i * Rows + j;
      assert ps[n] == [DigitChar(i + 1), DigitChar(j + 1)];
      assert ps[n] == name;
    }
    forall a, b | 0 <= a < b < |ps|
      ensures ps[a][0] < ps[b][0] || (ps[a][0] == ps[b][0] && ps[a][1] < ps[b][1])
    {
    }
  }
}
