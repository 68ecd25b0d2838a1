/** ProfileScreen: the avatar initials and the membership details shown for the signed-in member. */
module ProfileScreen {
  import opened Wrappers
  import opened Text
  import opened Entities
  import opened LibraryStore
  import opened PaymentRepository
  import opened MemberService

  /** `split(' ')`: the pieces between single spaces, empty pieces included. */
  function SplitOnSpace(s: string): (r: seq<string>)
    ensures |r| >= 1
    ensures forall i :: 0 <= i < |r| ==> ' ' !in r[i]
  {
    if s == [] then [""]
    else
      var rest := SplitOnSpace(s[1..]);
      if s[0] == ' ' then [""] + rest else [[s[0]] + rest[0]] + rest[1..]
  }

  /** `join(' ')`, the inverse of the split. */
  function JoinWithSpace(ws: seq<string>): string
    requires |ws| >= 1
  {
    if |ws| == 1 then ws[0] else ws[0] + " " + JoinWithSpace(ws[1..])
  }

  /** Joining the pieces gives the name back. */
  lemma {:induction false} SplitJoinRoundTrip(s: string)
    ensures JoinWithSpace(SplitOnSpace(s)) == s
  {
    if s != [] {
      SplitJoinRoundTrip(s[1..]);
      var rest := SplitOnSpace(s[1..]);
      if s[0] == ' ' {
        assert ([""] + rest)[1..] == rest;
      } else {
        var r := [[s[0]] + rest[0]] + rest[1..];
        if |rest| == 1 {
          assert r == [[s[0]] + rest[0]];
        } else {
          assert r[1..] == rest[1..];
          assert JoinWithSpace(rest) == rest[0] + " " + JoinWithSpace(rest[1..]);
        }
      }
    }
  }

  /** A word without spaces followed by a space and the rest splits into the word and the rest's pieces. */
  lemma {:induction false} SplitAfterWord(w: string, rest: string)
    requires ' ' !in w
    ensures SplitOnSpace(w + " " + rest) == [w] + SplitOnSpace(rest)
  {
    if w == [] {
      assert w + " " + rest == [' '] + rest;
      assert (w + " " + rest)[1..] == rest;
    } else {
      assert (w + " " + rest)[1..] == w[1..] + " " + rest;
      assert w[0] != ' ' by { assert w[0] in w; }
      SplitAfterWord(w[1..], rest);
      assert [w[0]] + w[1..] == w;
    }
  }

  /** A string without spaces is a single piece. */
  lemma {:induction false} SplitSingleWord(w: string)
    requires ' ' !in w
    ensures SplitOnSpace(w) == [w]
  {
    if w != [] {
      assert w[0] != ' ' by { assert w[0] in w; }
      SplitSingleWord(w[1..]);
      assert [w[0]] + w[1..] == w;
    }
  }

  /** `toUpperCase` on the letters a-z; every other character is kept. */
  function UpperChar(c: char): char
  {
    if 'a' <= c <= 'z' then (c as int - 32) as char else c
  }

  /** `substring(0, 1).toUpperCase()`: the upper-cased first character, or nothing for an empty word. */
  function FirstLetter(w: string): (r: string)
    ensures |r| <= 1
    ensures |r| == 1 <==> w != ""
  {
    if w == "" then "" else [UpperChar(w[0])]
  }

  /** getInitials: the first letter of the first piece, then that of the last piece when there are several. */
  function GetInitials(name: string): string
  {
    var names := SplitOnSpace(name);
    FirstLetter(names[0]) + (if |names| > 1 then FirstLetter(names[|names| - 1]) else "")
  }

  /** At most two letters; a name without spaces gives exactly its upper-cased first letter. */
  lemma InitialsLength(name: string)
    ensures |GetInitials(name)| <= 2
    ensures ' ' !in name && name != "" ==> GetInitials(name) == [UpperChar(name[0])]
  {
    if ' ' !in name {
      SplitSingleWord(name);
    }
  }

  /** The first and the last word decide; the words in between are ignored. */
  lemma InitialsOfThreeWords(first: string, middle: string, last: string)
    requires ' ' !in first && ' ' !in middle && ' ' !in last
    ensures GetInitials(first + " " + middle + " " + last) == FirstLetter(first) + FirstLetter(last)
  {
    SplitSingleWord(last);
    SplitAfterWord(middle, last);
    assert first + " " + middle + " " + last == first + " " + (middle + " " + last);
    SplitAfterWord(first, middle + " " + last);
  }

  /** A trailing space makes the last piece empty, so a one-word name keeps a single letter. */
  lemma TrailingSpaceGivesOneLetter(w: string)
    requires ' ' !in w && w != ""
    ensures GetInitials(w + " ") == [UpperChar(w[0])]
  {
    SplitAfterWord(w, "");
    assert w + " " + "" == w + " ";
  }

  /** A leading space makes the first piece empty, so only the last word's letter is shown. */
  lemma LeadingSpaceDropsFirstLetter(w: string)
    requires ' ' !in w && w != ""
    ensures GetInitials(" " + w) == [UpperChar(w[0])]
  {
    SplitSingleWord(w);
    SplitAfterWord("", w);
    assert "" + " " + w == " " + w;
  }

  /** The Membership Details card. `formatDate` stands for `toLocaleDateString`. */
  datatype MembershipCard = MembershipCard(memberId: string, status: string, due: string)

  const MemberIdPrefix: string := "LIB-"

  function MembershipDetails(p: MemberProfile, formatDate: Date -> string): MembershipCard
  {
    MembershipCard(
      MemberIdPrefix + NatToString(p.id),
      if p.membershipActive then "Active" else "Expired",
      if p.membershipDueDate.Some? then formatDate(p.membershipDueDate.value) else "N/A")
  }

  /**
   * For the profile the server builds: the status reads Active exactly when the membership is
   * active, an active member always sees a due date, and different members see different ids.
   */
  lemma MembershipDetailsOfProfile(m: Member, m': Member, ps: seq<Payment>, today: Date, formatDate: Date -> string)
    requires m.id != m'.id
    ensures var p := MapToMemberProfile(m, ps, today);
      var card := MembershipDetails(p, formatDate);
      && (card.status == "Active" <==> MembershipActive(ps, m.id, today))
      && (card.status == "Active" || card.status == "Expired")
      && (card.status == "Active" ==> card.due == formatDate(p.membershipDueDate.value))
      && card.memberId != MembershipDetails(MapToMemberProfile(m', ps, today), formatDate).memberId
  {
    var id1 := MembershipDetails(MapToMemberProfile(m, ps, today), formatDate).memberId;
    var id2 := MembershipDetails(MapToMemberProfile(m', ps, today), formatDate).memberId;
    if id1 == id2 {
      assert id1[|MemberIdPrefix|..] == NatToString(m.id);
      assert id2[|MemberIdPrefix|..] == NatToString(m'.id);
      NatToStringInjective(m.id, m'.id);
    }
  }
}
