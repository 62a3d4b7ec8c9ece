/** The Favorite Characters screen: colour-coded cards for the liked
    characters it was handed, and a confirm-to-remove flow that marks rows as
    pending removal. */
module Favorites {
  import opened Model
  import opened Seqs

  // ---------------------------------------------------------------------
  // Status colours
  // ---------------------------------------------------------------------

  /** The status text colour and the card background colour. */
  datatype StatusColors = StatusColors(text: string, background: string)

  /** Red on light red. */
  const DeadColors := StatusColors("#FF6347", "#FADBD8")

  /** Green on light green. */
  const AliveColors := StatusColors("#32CD32", "#D4EFDF")

  /** Orange on light orange. */
  const OtherColors := StatusColors("orange", "#FFDAB9")

  /** The colours of a card, chosen by exact comparison of the status. */
  function ColorsFor(status: string): (r: StatusColors)
    ensures r in {DeadColors, AliveColors, OtherColors}
    ensures r == DeadColors <==> status == "Dead"
    ensures r == AliveColors <==> status == "Alive"
    ensures r == OtherColors <==> status != "Dead" && status != "Alive"
  {
    if status == "Dead" then DeadColors
    else if status == "Alive" then AliveColors
    else OtherColors
  }

  /** The comparison is case-sensitive: "alive", "dead" and "unknown" all get
      the fallback colours. */
  lemma InexactStatusesFallBack()
    ensures ColorsFor("alive") == OtherColors
    ensures ColorsFor("dead") == OtherColors
    ensures ColorsFor("unknown") == OtherColors
  {
  }

  // ---------------------------------------------------------------------
  // Pending removals
  // ---------------------------------------------------------------------

  /** The screen's state: the liked list it renders, exactly as received, and
      the identifiers whose removal has been confirmed. */
  datatype Screen = Screen(liked: seq<Character>, removed: seq<int>)

  /** Opening the screen with the liked list handed over by the Episode
      Details screen: nothing is marked removed yet. */
  function OpenFavorites(liked: seq<Character>): (s: Screen)
    ensures s.liked == liked
    ensures forall id :: !IsDisabled(s, id)
  {
    Screen(liked, [])
  }

  /** A row is disabled once its character's removal has been confirmed. */
  predicate IsDisabled(s: Screen, id: int) {
    id in s.removed
  }

  /** One rendered card. */
  datatype Row = Row(character: Character, colors: StatusColors, disabled: bool)

  /** The card for character `c`. */
  function RenderRow(s: Screen, c: Character): (r: Row)
    ensures r.character == c
    ensures r.disabled <==> c.id in s.removed
    ensures r.colors == AliveColors <==> c.status == "Alive"
    ensures r.colors == DeadColors <==> c.status == "Dead"
    ensures c.status != "Alive" && c.status != "Dead" ==> r.colors == OtherColors
  {
    Row(c, ColorsFor(c.status), IsDisabled(s, c.id))
  }

  /** The answer to the confirmation dialog. */
  datatype Choice = Cancel | Remove

  /** The screen after a dialog, and the characters passed to the removal
      callback on the way (the callback itself belongs to the caller). */
  datatype Step = Step(screen: Screen, callbacks: seq<Character>)

  /** The dialog for character `c` answered with `choice`: confirming calls
      the callback once with `c` and marks its identifier removed; cancelling
      does nothing. */
  function HandleRemoveFromFavorites(s: Screen, c: Character, choice: Choice): (r: Step)
    ensures r.screen.liked == s.liked
    ensures choice == Cancel ==> r.screen == s && r.callbacks == []
    ensures choice == Remove ==> r.callbacks == [c] && r.screen.removed == s.removed + [c.id]
    ensures IsDisabled(r.screen, c.id) <==> IsDisabled(s, c.id) || choice == Remove
    ensures forall id :: IsDisabled(s, id) ==> IsDisabled(r.screen, id)
  {
    match choice
    case Cancel => Step(s, [])
    case Remove => Step(Screen(s.liked, s.removed + [c.id]), [c])
  }

  /** A tap on the row of `c`, with the answer the dialog would get: a
      disabled row ignores the tap and opens no dialog. */
  function PressRow(s: Screen, c: Character, choice: Choice): (r: Step)
    ensures r.screen.liked == s.liked
    ensures IsDisabled(s, c.id) ==> r == Step(s, [])
    ensures !IsDisabled(s, c.id) ==> r == HandleRemoveFromFavorites(s, c, choice)
    ensures s.removed <= r.screen.removed
  {
    if IsDisabled(s, c.id) then Step(s, []) else HandleRemoveFromFavorites(s, c, choice)
  }

  /** One tap: the character tapped and the dialog answer. */
  datatype Press = Press(character: Character, choice: Choice)

  /** A run of taps from screen `s`: the final screen and every callback
      invocation, in order. */
  function Run(s: Screen, presses: seq<Press>): Step
    decreases |presses|
  {
    if |presses| == 0 then Step(s, [])
    else
      var first := PressRow(s, presses[0].character, presses[0].choice);
      var rest := Run(first.screen, presses[1..]);
      Step(rest.screen, first.callbacks + rest.callbacks)
  }

  /** Over any run of taps the rendered list never changes, the removed list
      only grows (so a disabled row stays disabled), no identifier is marked
      twice, and the callback was called exactly once per newly marked
      identifier, with the character carrying it. */
  lemma {:induction false} RunInvariant(s: Screen, presses: seq<Press>)
    requires NoDuplicates(s.removed)
    ensures Run(s, presses).screen.liked == s.liked
    ensures s.removed <= Run(s, presses).screen.removed
    ensures forall id :: IsDisabled(s, id) ==> IsDisabled(Run(s, presses).screen, id)
    ensures NoDuplicates(Run(s, presses).screen.removed)
    ensures |Run(s, presses).callbacks| == |Run(s, presses).screen.removed| - |s.removed|
    ensures forall k :: 0 <= k < |Run(s, presses).callbacks|
              ==> Run(s, presses).callbacks[k].id == Run(s, presses).screen.removed[|s.removed| + k]
    decreases |presses|
  {
    if |presses| > 0 {
      var p := presses[0];
      var first := PressRow(s, p.character, p.choice);
      assert NoDuplicates(first.screen.removed) by {
        if !IsDisabled(s, p.character.id) && p.choice == Remove {
          var rm := first.screen.removed;
          forall i, j | 0 <= i < j < |rm|
            ensures rm[i] != rm[j]
          {
            if j == |s.removed| {
              assert rm[i] == s.removed[i];
            } else {
              assert rm[i] == s.removed[i] && rm[j] == s.removed[j];
            }
          }
        }
      }
      RunInvariant(first.screen, presses[1..]);
      var rest := Run(first.screen, presses[1..]);
      var all := Run(s, presses);
      assert all.callbacks == first.callbacks + rest.callbacks;
      assert s.removed <= rest.screen.removed by {
        assert s.removed <= first.screen.removed;
      }
      forall k | 0 <= k < |all.callbacks|
        ensures all.callbacks[k].id == all.screen.removed[|s.removed| + k]
      {
        if |first.callbacks| == 1 {
          if k == 0 {
            assert all.callbacks[0] == p.character;
            assert first.screen.removed[|s.removed|] == p.character.id;
            assert first.screen.removed <= all.screen.removed;
          } else {
            assert all.callbacks[k] == rest.callbacks[k - 1];
          }
        } else {
          assert all.callbacks[k] == rest.callbacks[k];
        }
      }
    }
  }

  /** Whatever is tapped and answered after opening, the screen still renders
      the list it was handed: confirmed removals only mark rows. */
  lemma RemovalLeavesListIntact(liked: seq<Character>, presses: seq<Press>)
    ensures Run(OpenFavorites(liked), presses).screen.liked == liked
  {
    RunInvariant(OpenFavorites(liked), presses);
  }

  // ---------------------------------------------------------------------
  // The callback as the navigation actually supplies it
  // ---------------------------------------------------------------------

  /** Whether the screen's parameters carry a removal callback. */
  datatype Callback = Supplied | Missing

  /** The screen's navigation parameters. */
  datatype Params = Params(likedCharacters: seq<Character>, removeFromFavorites: Callback)

  /** What the "View Liked Characters" button of the Episode Details screen
      passes: the liked list, and no removal callback. */
  function ParamsFromDetails(liked: seq<Character>): (p: Params)
    ensures p.likedCharacters == liked
    ensures p.removeFromFavorites.Missing?
  {
    Params(liked, Missing)
  }

  /** How the dialog ends when the callback may be absent: normally, or by
      throwing when the confirm handler calls a callback that is not there. */
  datatype Dialog = Closed(step: Step) | Threw(screen: Screen)

  /** The confirm handler as written: it calls the callback first and only
      then marks the identifier, so a missing callback throws before the
      mark is made. */
  function HandleRemoveAsWritten(s: Screen, c: Character, choice: Choice, cb: Callback): (r: Dialog)
    ensures cb == Supplied ==> r == Closed(HandleRemoveFromFavorites(s, c, choice))
    ensures cb == Missing && choice == Cancel ==> r == Closed(Step(s, []))
    ensures cb == Missing && choice == Remove ==> r == Threw(s)
  {
    match (cb, choice)
    case (Supplied, _) => Closed(HandleRemoveFromFavorites(s, c, choice))
    case (Missing, Cancel) => Closed(Step(s, []))
    case (Missing, Remove) => Threw(s)
  }

  /** On a Favorites screen reached from Episode Details, confirming a
      removal throws and the row stays enabled, whereas with a callback
      supplied the same confirmation disables it. */
  lemma ConfirmFromDetailsLeavesRowEnabled(liked: seq<Character>, c: Character)
    ensures var p := ParamsFromDetails(liked);
            var s := OpenFavorites(p.likedCharacters);
            && HandleRemoveAsWritten(s, c, Remove, p.removeFromFavorites) == Threw(s)
            && !IsDisabled(s, c.id)
            && IsDisabled(HandleRemoveFromFavorites(s, c, Remove).screen, c.id)
  {
  }
}
