/** Position labels of the acting-order engine
    (src/js/action-order-manager-v2.js): the first-match ladder used when the
    button is known, and the fixed per-count arrays of the sequential fallback. */
module Positions {
  import opened JsString

  // ---------------------------------------------------------------------------
  // The ladder of createPreflopOrder / createPostflopOrder (three or more seats)
  // ---------------------------------------------------------------------------

  /** The label of the `i`-th seat clockwise after the button among `n`
      occupied seats: the first rule that matches wins. */
  function LadderLabel(i: nat, n: nat): string {
    if i == 0 then "SB"
    else if i == 1 then "BB"
    else if i == n - 1 then "BTN"
    else if i == 2 then "UTG"
    else if i == 3 then "UTG+1"
    else if i == 4 then "MP1"
    else if i == 5 then "MP2"
    else if i == n - 2 then "CO"
    else "MP" + IntToString(i - 2)
  }

  /** Printing integers is injective, because `parseInt` reads them back. */
  lemma IntToStringInjective(a: int, b: int)
    requires IntToString(a) == IntToString(b)
    ensures a == b
  {
    ParseIntOfIntToString(a, Radix10);
    ParseIntOfIntToString(b, Radix10);
  }

  /** The numbered middle labels `MP4`, `MP5`, ... of the ladder's last rule. */
  predicate NumberedMiddle(text: string, k: int) {
    k >= 4 && text == "MP" + IntToString(k)
  }

  /** Where each ladder rule applies, stated independently of rule order. */
  lemma LadderCases(i: nat, n: nat)
    requires 3 <= n && i < n
    ensures i == 0 ==> LadderLabel(i, n) == "SB"
    ensures i == 1 ==> LadderLabel(i, n) == "BB"
    ensures i == n - 1 && i >= 2 ==> LadderLabel(i, n) == "BTN"
    ensures 2 <= i <= 5 && i < n - 1 ==> LadderLabel(i, n) == ["UTG", "UTG+1", "MP1", "MP2"][i - 2]
    ensures 6 <= i == n - 2 ==> LadderLabel(i, n) == "CO"
    ensures 6 <= i < n - 2 ==> NumberedMiddle(LadderLabel(i, n), i - 2)
  {
  }

  /** `CO` appears in an `n`-seat ladder exactly when `n >= 8`: for fewer seats
      the seat before the button is caught by an earlier rule. */
  lemma CutoffFromEightSeats(n: nat)
    requires n >= 3
    ensures (exists i :: 0 <= i < n && LadderLabel(i, n) == "CO") <==> n >= 8
  {
    if n >= 8 {
      assert LadderLabel(n - 2, n) == "CO";
    }
    forall i | 0 <= i < n && LadderLabel(i, n) == "CO"
      ensures n >= 8
    {
      assert i >= 6 ==> LadderLabel(i, n)[0] != 'M';
    }
  }

  /** `MP3` is never produced: index 5 is `MP2` and the numbered rule starts
      at `MP4`. */
  lemma NoMP3(i: nat, n: nat)
    ensures LadderLabel(i, n) != "MP3"
  {
    if i >= 6 && i != n - 1 && i != n - 2 {
      var k := i - 2;
      if LadderLabel(i, n) == "MP3" {
        assert IntToString(k) == LadderLabel(i, n)[2..];
        SingleDigitString(3);
        IntToStringInjective(k, 3);
      }
    }
  }

  /** Within one hand of three or more seats, no two seats share a label. */
  lemma LadderInjective(i: nat, j: nat, n: nat)
    requires 3 <= n && i < j < n
    ensures LadderLabel(i, n) != LadderLabel(j, n)
  {
    var a := LadderLabel(i, n);
    var b := LadderLabel(j, n);
    if 6 <= j < n - 2 {
      if 6 <= i {
        if a == b {
          assert a[2..] == IntToString(i - 2) && b[2..] == IntToString(j - 2);
          IntToStringInjective(i - 2, j - 2);
        }
      } else if i == 4 || i == 5 {
        MiddleDigits(j - 2, a);
      } else {
        assert b[0] == 'M' && a[0] != 'M';
      }
    } else if 6 <= i < n - 2 {
      // then `j` is the cutoff or the button seat
      assert a[0] == 'M' && b[0] != 'M';
    }
  }

  /** A numbered middle label is never `MP1` or `MP2`. */
  lemma MiddleDigits(k: int, text: string)
    requires k >= 4
    requires text == "MP1" || text == "MP2"
    ensures "MP" + IntToString(k) != text
  {
    if "MP" + IntToString(k) == text {
      var d := IntToString(k);
      assert d == text[2..];
      SingleDigitString(1);
      SingleDigitString(2);
      if text == "MP1" {
        IntToStringInjective(k, 1);
      } else {
        IntToStringInjective(k, 2);
      }
    }
  }

  // ---------------------------------------------------------------------------
  // The sequential fallback labels
  // ---------------------------------------------------------------------------

  /** `labels[index] || \`P${index + 1}\``: the array entry, or `P<index+1>`
      past the end of the array (every array entry is a non-empty string, so
      the `||` only falls through past the end). */
  function LabelAt(labels: seq<string>, index: nat): (r: string)
    ensures index < |labels| ==> r == labels[index]
    ensures index >= |labels| ==> r == "P" + IntToString(index + 1)
  {
    if index < |labels| then labels[index] else "P" + IntToString(index + 1)
  }

  const PreflopThree: seq<string> := ["BTN", "SB", "BB"]
  const PreflopFour: seq<string> := ["BTN", "SB", "BB", "UTG"]
  const PreflopFive: seq<string> := ["BTN", "SB", "BB", "UTG", "CO"]
  const PreflopMany: seq<string> := ["BTN", "SB", "BB", "UTG", "UTG+1", "MP", "CO"]
  const PostflopThree: seq<string> := ["SB", "BB", "BTN"]
  const PostflopFour: seq<string> := ["SB", "BB", "UTG", "BTN"]
  const PostflopFive: seq<string> := ["SB", "BB", "UTG", "CO", "BTN"]
  const PostflopMany: seq<string> := ["SB", "BB", "UTG", "UTG+1", "MP", "CO", "BTN"]

  /** The label array for a table of `total` players, `[]` for one player. */
  function PreflopArray(total: nat): seq<string> {
    if total == 3 then PreflopThree
    else if total == 4 then PreflopFour
    else if total == 5 then PreflopFive
    else if total >= 6 then PreflopMany
    else []
  }

  function PostflopArray(total: nat): seq<string> {
    if total == 3 then PostflopThree
    else if total == 4 then PostflopFour
    else if total == 5 then PostflopFive
    else if total >= 6 then PostflopMany
    else []
  }

  /** `getSequentialPreflopPosition(index, totalPlayers)`. */
  function SequentialPreflopLabel(index: nat, total: nat): (r: string)
    ensures total == 2 ==> r == (if index == 0 then "SB/BTN" else "BB")
    ensures total != 2 && index >= |PreflopArray(total)| ==> r == "P" + IntToString(index + 1)
  {
    if total == 2 then (if index == 0 then "SB/BTN" else "BB")
    else LabelAt(PreflopArray(total), index)
  }

  /** `getSequentialPostflopPosition(index, totalPlayers)`. */
  function SequentialPostflopLabel(index: nat, total: nat): (r: string)
    ensures total == 2 ==> r == (if index == 0 then "SB/BTN" else "BB")
    ensures total != 2 && index >= |PostflopArray(total)| ==> r == "P" + IntToString(index + 1)
  {
    if total == 2 then (if index == 0 then "SB/BTN" else "BB")
    else LabelAt(PostflopArray(total), index)
  }

  /** Each postflop array is its preflop array rotated left by one: the button
      moves from the front to the back. (A six-player table uses only the first
      six entries of the seven-entry arrays; see `SixPlayerLabels`.) */
  lemma SequentialArraysRotate(total: nat, index: nat)
    requires total >= 3
    requires index < |PreflopArray(total)|
    ensures |PostflopArray(total)| == |PreflopArray(total)|
    ensures SequentialPostflopLabel(index, total)
         == SequentialPreflopLabel((index + 1) % |PreflopArray(total)|, total)
  {
  }

  /** With six players the arrays are cut after six entries, so the preflop
      labels have no `CO` and the postflop labels no `BTN`. */
  lemma SixPlayerLabels(index: nat)
    requires index < 6
    ensures SequentialPreflopLabel(index, 6) != "CO"
    ensures SequentialPostflopLabel(index, 6) != "BTN"
  {
  }
}
