/** The fixed list of opcode "mutations" the linear generator tries, built
    once by the static constructor, and its length-5 sublist used when no
    mutation matches. */
module Mutations {

  import opened OpCodes

  /** `MutationLength`: the number of building rounds, hence the longest
      mutation. */
  const MutationLength := 5

  /** `OpCodes`: the three mnemonics a mutation may use, in list order. None
      of them prints, reads, jumps or halts. */
  const SafeOpCodes: seq<char> := [OpCode(Nop), OpCode(Crazy), OpCode(Rotate)]

  /** A string of at least one and at most `n` safe mnemonics. */
  predicate IsMutation(s: string, n: nat)
  {
    1 <= |s| <= n && forall j :: 0 <= j < |s| ==> s[j] in SafeOpCodes
  }

  /** The inner `foreach (char opCode in OpCodes)`: `s` extended by each safe
      mnemonic in turn. */
  function Children(s: string): seq<string>
  {
    seq(|SafeOpCodes|, j requires 0 <= j < |SafeOpCodes| => s + [SafeOpCodes[j]])
  }

  /** The second inner loop: each safe mnemonic on its own. */
  function Singles(): seq<string>
  {
    seq(|SafeOpCodes|, j requires 0 <= j < |SafeOpCodes| => [SafeOpCodes[j]])
  }

  /** The loop over the snapshot `opCodeMutations.ToArray()`: the children of
      every entry, in entry order. */
  function Extend(list: seq<string>): seq<string>
  {
    if list == [] then []
    else Extend(list[..|list| - 1]) + Children(list[|list| - 1])
  }

  /** One round of the static constructor's outer loop: the list, then the
      children of its snapshot, then the singles. */
  function Round(list: seq<string>): seq<string>
  {
    list + Extend(list) + Singles()
  }

  /** The list after `k` rounds. */
  function Build(k: nat): seq<string>
  {
    if k == 0 then [] else Round(Build(k - 1))
  }

  /** `List.Reverse`. */
  function Reverse<T>(s: seq<T>): (r: seq<T>)
    ensures |r| == |s|
    ensures forall i :: 0 <= i < |s| ==> r[i] == s[|s| - 1 - i]
  {
    if s == [] then [] else [s[|s| - 1]] + Reverse(s[..|s| - 1])
  }

  /** `Where(_ => _.Length == n)`: the entries of length `n`, each as often
      as in the list. */
  function WithLength(list: seq<string>, n: nat): (r: seq<string>)
    ensures forall s :: s in r <==> s in list && |s| == n
    ensures forall s :: multiset(r)[s] == if |s| == n then multiset(list)[s] else 0
  {
    if list == [] then []
    else
      assert list == [list[0]] + list[1..];
      (if |list[0]| == n then [list[0]] else []) + WithLength(list[1..], n)
  }

  /** `OpCodeMutations`: the built list, reversed. */
  const OpCodeMutations: seq<string> := Reverse(Build(MutationLength))

  /** `ForcedOpCodeMutations`: the mutations of full length. */
  const ForcedOpCodeMutations: seq<string> := WithLength(OpCodeMutations, MutationLength)

  // --------------------------------------------------------------- sizes

  function Pow4(k: nat): nat
  {
    if k == 0 then 1 else 4 * Pow4(k - 1)
  }

  lemma {:induction false} ExtendLength(list: seq<string>)
    ensures |Extend(list)| == 3 * |list|
  {
    if list != [] {
      ExtendLength(list[..|list| - 1]);
    }
  }

  /** Each round quadruples the list and adds three, so after `k` rounds it
      holds 4^k - 1 entries. */
  lemma {:induction false} BuildLength(k: nat)
    ensures |Build(k)| + 1 == Pow4(k)
  {
    if k > 0 {
      BuildLength(k - 1);
      ExtendLength(Build(k - 1));
    }
  }

  /** The generator tries 1023 mutations per round. */
  lemma MutationCount()
    ensures |OpCodeMutations| == 1023
  {
    BuildLength(MutationLength);
  }

  // ------------------------------------------------------------- members

  /** `Extend` holds exactly the one-character extensions of the entries. */
  lemma {:induction false} ExtendMembers(list: seq<string>, s: string)
    ensures s in Extend(list) <==> |s| >= 1 && s[..|s| - 1] in list && s[|s| - 1] in SafeOpCodes
  {
    if list != [] {
      var init := list[..|list| - 1];
      var last := list[|list| - 1];
      ExtendMembers(init, s);
      assert list == init + [last];
      if s in Children(last) {
        var j :| 0 <= j < |SafeOpCodes| && Children(last)[j] == s;
        assert s[..|s| - 1] == last;
      }
      if |s| >= 1 && s[..|s| - 1] == last && s[|s| - 1] in SafeOpCodes {
        var j :| 0 <= j < |SafeOpCodes| && SafeOpCodes[j] == s[|s| - 1];
        assert s == last + [SafeOpCodes[j]];
        assert Children(last)[j] == s;
      }
    }
  }

  lemma SinglesMembers(s: string)
    ensures s in Singles() <==> |s| == 1 && s[0] in SafeOpCodes
  {
    if |s| == 1 && s[0] in SafeOpCodes {
      var j :| 0 <= j < |SafeOpCodes| && SafeOpCodes[j] == s[0];
      assert Singles()[j] == s;
    }
  }

  /** After `k` rounds the list holds exactly the strings of one to `k`
      safe mnemonics (with repetitions: see `MutationOrder`). */
  lemma {:induction false} BuildMembers(k: nat, s: string)
    ensures s in Build(k) <==> IsMutation(s, k)
  {
    if k > 0 {
      var prev := Build(k - 1);
      RoundMembers(prev, s);
      BuildMembers(k - 1, s);
      ExtendMembers(prev, s);
      SinglesMembers(s);
      if |s| == 1 {
        BuildMembers(k - 1, s[..0]);
      } else if |s| >= 2 {
        BuildMembers(k - 1, s[..|s| - 1]);
        MutationSplit(s, k);
        MutationGrows(s, k);
      }
    }
  }

  lemma RoundMembers(list: seq<string>, s: string)
    ensures s in Round(list) <==> s in list || s in Extend(list) || s in Singles()
  {
  }

  /** A mutation within a smaller bound is one within a larger bound. */
  lemma MutationGrows(s: string, k: nat)
    requires k >= 1
    ensures IsMutation(s, k - 1) ==> IsMutation(s, k)
  {
  }

  /** A mutation of two or more mnemonics is a shorter mutation plus one
      safe mnemonic. */
  lemma MutationSplit(s: string, k: nat)
    requires |s| >= 2 && k >= 1
    ensures IsMutation(s, k) <==> IsMutation(s[..|s| - 1], k - 1) && s[|s| - 1] in SafeOpCodes
  {
    var p := s[..|s| - 1];
    assert forall j :: 0 <= j < |p| ==> p[j] == s[j];
    assert s == p + [s[|s| - 1]];
  }

  lemma ReverseMembers<T>(s: seq<T>, x: T)
    ensures x in Reverse(s) <==> x in s
  {
    var r := Reverse(s);
    if x in s {
      var i :| 0 <= i < |s| && s[i] == x;
      assert r[|s| - 1 - i] == x;
    }
  }

  /** The mutations are exactly the strings of one to five safe mnemonics. */
  lemma MutationMembers(s: string)
    ensures s in OpCodeMutations <==> IsMutation(s, MutationLength)
  {
    ReverseMembers(Build(MutationLength), s);
    BuildMembers(MutationLength, s);
  }

  /** The forced mutations are exactly the strings of five safe mnemonics,
      so there is at least one to pick. */
  lemma ForcedMembers(s: string)
    ensures s in ForcedOpCodeMutations <==> |s| == MutationLength && IsMutation(s, MutationLength)
    ensures |ForcedOpCodeMutations| > 0
  {
    MutationMembers(s);
    var five := "ooooo";
    MutationMembers(five);
    assert IsMutation(five, MutationLength);
  }

  /** Every forced mutation has full length and uses safe mnemonics only. */
  lemma ForcedShape(i: nat)
    requires i < |ForcedOpCodeMutations|
    ensures |ForcedOpCodeMutations[i]| == MutationLength
    ensures IsMutation(ForcedOpCodeMutations[i], MutationLength)
  {
    ForcedMembers(ForcedOpCodeMutations[i]);
  }

  // --------------------------------------------------------------- order

  /** A round keeps the list it extends as its prefix. */
  lemma {:induction false} BuildPrefix(j: nat, k: nat)
    requires j <= k
    ensures Build(j) <= Build(k)
    decreases k
  {
    if j < k {
      BuildPrefix(j, k - 1);
    }
  }

  lemma ExtendLast(list: seq<string>)
    requires list != []
    ensures Extend(list) != []
    ensures Extend(list)[|Extend(list)| - 1] == list[|list| - 1] + [SafeOpCodes[2]]
  {
  }

  /** The reversed list opens with the three singles of the last round, in
      reverse, then the last child of the round before: `*`, `p`, `o`,
      `**`. So it is not ordered shortest first: a two-character mutation
      is tried before the one-character mutation at the very end. It also
      repeats entries: `o` is tried at position 2 and again at 1022. */
  lemma MutationOrder()
    ensures |OpCodeMutations| == 1023
    ensures OpCodeMutations[0] == "*" && OpCodeMutations[1] == "p" && OpCodeMutations[2] == "o"
    ensures OpCodeMutations[3] == "**"
    ensures OpCodeMutations[1022] == "o"
    ensures |OpCodeMutations[3]| > |OpCodeMutations[1022]|
  {
    MutationCount();
    var b4 := Build(4);
    var b5 := Build(5);
    BuildLength(4);
    ExtendLength(b4);
    assert b5 == b4 + Extend(b4) + Singles();
    assert b4 == Build(3) + Extend(Build(3)) + Singles();
    assert b4[254] == "*";
    ExtendLast(b4);
    assert b5[1019] == "**";
    BuildPrefix(1, 5);
    assert Build(1) == Singles();
    assert b5[0] == "o";
  }

}
