/** The Episode Details screen's liked list: a sequence of characters keyed
    by identifier, toggled one character at a time and capped at ten. */
module EpisodeDetails {
  import opened Model
  import opened Seqs

  /** At most this many characters can be liked at once. */
  const MaxLiked: nat := 10

  /** The liked list starts empty. */
  const InitialLiked: seq<Character> := []

  /** Some liked entry carries identifier `id`. */
  predicate IsLiked(liked: seq<Character>, id: int) {
    exists i :: 0 <= i < |liked| && liked[i].id == id
  }

  /** The heart drawn on a character's tile: full exactly when the character's
      identifier is liked. */
  predicate HeartShown(liked: seq<Character>, c: Character) {
    IsLiked(liked, c.id)
  }

  /** No two liked entries share an identifier. */
  predicate CharacterIdsUnique(s: seq<Character>) {
    forall i, j :: 0 <= i < j < |s| ==> s[i].id != s[j].id
  }

  /** What every reachable liked list satisfies. */
  predicate ValidLikes(liked: seq<Character>) {
    |liked| <= MaxLiked && CharacterIdsUnique(liked)
  }

  /** The screen opens with nothing liked, which satisfies the invariant. */
  lemma InitialLikesValid()
    ensures ValidLikes(InitialLiked)
    ensures forall c :: !HeartShown(InitialLiked, c)
  {
  }

  /** `liked.filter(c => c.id !== id)`: drops every entry with identifier
      `id` and keeps the others in order. */
  function RemoveId(liked: seq<Character>, id: int): (r: seq<Character>)
    ensures |r| <= |liked|
    ensures forall c :: c in r <==> c in liked && c.id != id
    ensures !IsLiked(r, id)
    ensures IsSubsequence(r, liked)
  {
    if |liked| == 0 then []
    else if liked[0].id == id then RemoveId(liked[1..], id)
    else [liked[0]] + RemoveId(liked[1..], id)
  }

  /** One step of the removal: the first entry survives exactly when its
      identifier differs. */
  lemma RemoveIdCons(liked: seq<Character>, id: int)
    requires |liked| > 0
    ensures RemoveId(liked, id)
            == (if liked[0].id == id then [] else [liked[0]]) + RemoveId(liked[1..], id)
  {
  }

  /** An identifier nobody carries is carried neither by the first entry nor
      by the rest. */
  lemma TailNotLiked(liked: seq<Character>, id: int)
    requires |liked| > 0 && !IsLiked(liked, id)
    ensures liked[0].id != id && !IsLiked(liked[1..], id)
  {
    forall i | 0 <= i < |liked| - 1
      ensures liked[1..][i].id != id
    {
      assert liked[1..][i] == liked[i + 1];
    }
  }

  /** Distinct identifiers stay distinct in the rest of the list, and none of
      them is the first entry's. */
  lemma TailIdsUnique(liked: seq<Character>)
    requires |liked| > 0 && CharacterIdsUnique(liked)
    ensures CharacterIdsUnique(liked[1..])
    ensures !IsLiked(liked[1..], liked[0].id)
  {
    var tail := liked[1..];
    forall i | 0 <= i < |tail|
      ensures tail[i] == liked[i + 1]
    {
    }
  }

  /** One step of the removal, as multisets: the first entry survives
      exactly when its identifier differs. */
  lemma RemoveIdStep(liked: seq<Character>, id: int)
    requires |liked| > 0
    ensures multiset(liked) == multiset{liked[0]} + multiset(liked[1..])
    ensures multiset(RemoveId(liked, id))
            == (if liked[0].id == id then multiset{} else multiset{liked[0]})
               + multiset(RemoveId(liked[1..], id))
  {
    assert liked == [liked[0]] + liked[1..];
  }

  /** Removing by identifier keeps every copy of every other entry: each
      value occurs in the result as often as in the list unless it carries
      the removed identifier, in which case not at all. */
  lemma {:induction false} RemoveIdCounts(liked: seq<Character>, id: int, x: Character)
    ensures multiset(RemoveId(liked, id))[x] == if x.id == id then 0 else multiset(liked)[x]
    decreases |liked|
  {
    if |liked| > 0 {
      RemoveIdCounts(liked[1..], id, x);
      RemoveIdStep(liked, id);
    }
  }

  /** How a toggle ended: the character was unliked, liked, or refused because
      the list was full (the limit alert). */
  datatype LikeOutcome = Unliked | Liked | LimitReached

  /** The liked list after a toggle, and how the toggle ended. */
  datatype Toggled = Toggled(liked: seq<Character>, outcome: LikeOutcome)

  /** Tapping a character's tile: unlike it if its identifier is liked;
      otherwise like it while fewer than ten are liked, and raise the limit
      alert when ten are. */
  function HandleLikeCharacter(liked: seq<Character>, c: Character): (r: Toggled)
    ensures r.outcome == Unliked <==> IsLiked(liked, c.id)
    ensures r.outcome == LimitReached <==> !IsLiked(liked, c.id) && |liked| >= MaxLiked
    ensures r.outcome == Unliked ==>
              && IsSubsequence(r.liked, liked)
              && (forall x :: x in r.liked <==> x in liked && x.id != c.id)
              && forall x :: multiset(r.liked)[x] == if x.id == c.id then 0 else multiset(liked)[x]
    ensures r.outcome == Liked ==> r.liked == liked + [c]
    ensures r.outcome == LimitReached ==> r.liked == liked
    ensures r.outcome != LimitReached ==> (HeartShown(r.liked, c) <==> !HeartShown(liked, c))
  {
    if IsLiked(liked, c.id) then
      assert forall x :: multiset(RemoveId(liked, c.id))[x]
                         == if x.id == c.id then 0 else multiset(liked)[x] by {
        forall x {
          RemoveIdCounts(liked, c.id, x);
        }
      }
      Toggled(RemoveId(liked, c.id), Unliked)
    else if |liked| < MaxLiked then
      assert IsLiked(liked + [c], c.id) by {
        assert (liked + [c])[|liked|] == c;
      }
      Toggled(liked + [c], Liked)
    else
      Toggled(liked, LimitReached)
  }

  /** Removing by identifier keeps identifiers distinct. */
  lemma {:induction false} RemoveIdKeepsIdsUnique(liked: seq<Character>, id: int)
    requires CharacterIdsUnique(liked)
    ensures CharacterIdsUnique(RemoveId(liked, id))
    decreases |liked|
  {
    if |liked| > 0 {
      var tail := liked[1..];
      TailIdsUnique(liked);
      RemoveIdKeepsIdsUnique(tail, id);
      RemoveIdCons(liked, id);
      var r := RemoveId(tail, id);
      forall k | 0 <= k < |r|
        ensures r[k].id != liked[0].id
      {
        assert r[k] in tail;
        var m :| 0 <= m < |tail| && tail[m] == r[k];
      }
    }
  }

  /** Every toggle keeps the invariant: at most ten entries, identifiers
      distinct. */
  lemma ToggleKeepsValid(liked: seq<Character>, c: Character)
    requires ValidLikes(liked)
    ensures ValidLikes(HandleLikeCharacter(liked, c).liked)
  {
    var r := HandleLikeCharacter(liked, c);
    match r.outcome
    case Unliked =>
      RemoveIdKeepsIdsUnique(liked, c.id);
    case Liked =>
      var s := liked + [c];
      forall i, j | 0 <= i < j < |s|
        ensures s[i].id != s[j].id
      {
        if j == |liked| {
          assert s[i] == liked[i];
        } else {
          assert s[i] == liked[i] && s[j] == liked[j];
        }
      }
    case LimitReached =>
  }

  /** Removing an identifier nobody carries changes nothing. */
  lemma {:induction false} RemoveAbsentId(liked: seq<Character>, id: int)
    requires !IsLiked(liked, id)
    ensures RemoveId(liked, id) == liked
    decreases |liked|
  {
    if |liked| > 0 {
      TailNotLiked(liked, id);
      RemoveAbsentId(liked[1..], id);
      RemoveIdCons(liked, id);
      assert liked == [liked[0]] + liked[1..];
    }
  }

  /** Removing the identifier of a just-appended character drops exactly that
      character when it was the only one carrying that identifier. */
  lemma {:induction false} RemoveAppendedId(liked: seq<Character>, c: Character)
    requires !IsLiked(liked, c.id)
    ensures RemoveId(liked + [c], c.id) == liked
    decreases |liked|
  {
    if |liked| == 0 {
      assert [c][1..] == [];
    } else {
      var tail := liked[1..];
      TailNotLiked(liked, c.id);
      RemoveAppendedId(tail, c);
      assert (liked + [c])[1..] == tail + [c];
      RemoveIdCons(liked + [c], c.id);
      assert liked == [liked[0]] + tail;
    }
  }

  /** Liking a character that was not liked while there is room, then
      tapping it again, restores the list exactly. */
  lemma LikeThenUnlikeRestores(liked: seq<Character>, c: Character)
    requires !IsLiked(liked, c.id) && |liked| < MaxLiked
    ensures HandleLikeCharacter(liked, c).outcome == Liked
    ensures HandleLikeCharacter(HandleLikeCharacter(liked, c).liked, c)
            == Toggled(liked, Unliked)
  {
    RemoveAppendedId(liked, c);
  }

  /** In a list with distinct identifiers every member occurs exactly once. */
  lemma {:induction false} UniqueMemberOnce(liked: seq<Character>, c: Character)
    requires CharacterIdsUnique(liked) && c in liked
    ensures multiset(liked)[c] == 1
    decreases |liked|
  {
    var tail := liked[1..];
    TailIdsUnique(liked);
    RemoveIdStep(liked, c.id);
    if liked[0] != c {
      assert c in tail by {
        assert liked == [liked[0]] + tail;
      }
      UniqueMemberOnce(tail, c);
    }
  }

  /** In a list with distinct identifiers, removing a member's identifier
      removes that member and nothing else. */
  lemma RemoveUniqueMember(liked: seq<Character>, c: Character)
    requires CharacterIdsUnique(liked) && c in liked
    ensures multiset(RemoveId(liked, c.id)) == multiset(liked) - multiset{c}
  {
    UniqueMemberOnce(liked, c);
    forall x
      ensures multiset(RemoveId(liked, c.id))[x] == (multiset(liked) - multiset{c})[x]
    {
      RemoveIdCounts(liked, c.id, x);
      if x.id == c.id && x != c && x in liked {
        var i :| 0 <= i < |liked| && liked[i] == x;
        assert false;
      }
    }
  }

  /** Unliking a liked character and liking it again gives back the same
      entries, though the character moves to the end of the list. */
  lemma UnlikeThenLikeSameEntries(liked: seq<Character>, c: Character)
    requires ValidLikes(liked) && c in liked
    ensures HandleLikeCharacter(liked, c).outcome == Unliked
    ensures HandleLikeCharacter(HandleLikeCharacter(liked, c).liked, c).outcome == Liked
    ensures multiset(HandleLikeCharacter(HandleLikeCharacter(liked, c).liked, c).liked)
            == multiset(liked)
  {
    var m :| 0 <= m < |liked| && liked[m] == c;
    assert IsLiked(liked, c.id);
    var once := RemoveId(liked, c.id);
    RemoveUniqueMember(liked, c);
    assert |once| == |liked| - 1 by {
      assert |multiset(once)| == |multiset(liked)| - 1;
    }
  }

  /** Taps on each character of `cs` in turn, starting from `liked`. */
  function ToggleAll(liked: seq<Character>, cs: seq<Character>): seq<Character>
    decreases |cs|
  {
    if |cs| == 0 then liked
    else ToggleAll(HandleLikeCharacter(liked, cs[0]).liked, cs[1..])
  }

  /** Liking characters with fresh, distinct identifiers succeeds for each
      as long as the total stays within ten: they are appended in tap order. */
  lemma {:induction false} LikeFreshInTurn(liked: seq<Character>, cs: seq<Character>)
    requires CharacterIdsUnique(liked + cs) && |liked + cs| <= MaxLiked
    ensures ToggleAll(liked, cs) == liked + cs
    decreases |cs|
  {
    if |cs| > 0 {
      var all := liked + cs;
      assert !IsLiked(liked, cs[0].id) by {
        forall i | 0 <= i < |liked|
          ensures liked[i].id != cs[0].id
        {
          assert all[i] == liked[i] && all[|liked|] == cs[0];
        }
      }
      var next := liked + [cs[0]];
      assert next + cs[1..] == all;
      LikeFreshInTurn(next, cs[1..]);
    }
  }

  /** Ten likes of distinct characters all succeed from the empty list, and
      an eleventh, unliked character is refused with the limit alert and the
      list still holds exactly the ten. */
  lemma EleventhLikeRefused(ten: seq<Character>, c: Character)
    requires |ten| == MaxLiked && CharacterIdsUnique(ten) && !IsLiked(ten, c.id)
    ensures ToggleAll(InitialLiked, ten) == ten
    ensures HandleLikeCharacter(ToggleAll(InitialLiked, ten), c) == Toggled(ten, LimitReached)
  {
    assert InitialLiked + ten == ten;
    LikeFreshInTurn(InitialLiked, ten);
  }
}
