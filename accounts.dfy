/** The account records and the in-place compaction of
    `delete_account_interactive`, which removes every record whose service
    matches the entered key under `strcasecmp`. */
module Accounts {
  import opened Words

  /** One stored account: the C-string contents of its text fields, and its salt. */
  datatype Account = Account(service: seq<char>, username: seq<char>, passwordHash: seq<char>,
                             salt: seq<Byte>)

  /** The C locale's `tolower`: only 'A'..'Z' change. */
  function LowerChar(c: char): (r: char)
    ensures 'A' <= c <= 'Z' ==> 'a' <= r <= 'z' && r as int - c as int == 32
    ensures !('A' <= c <= 'Z') ==> r == c
  {
    if 'A' <= c <= 'Z' then (c as int + 32) as char else c
  }

  /** The string with every character folded by LowerChar. */
  function Lower(s: seq<char>): (r: seq<char>)
    ensures |r| == |s|
  {
    seq(|s|, i requires 0 <= i < |s| => LowerChar(s[i]))
  }

  /** `strcasecmp(a, b) == 0`: equal after folding ASCII capitals to lowercase. */
  predicate CaseEq(a: seq<char>, b: seq<char>)
  {
    Lower(a) == Lower(b)
  }

  /** The deletion test applied to each record. */
  predicate Matches(acct: Account, key: seq<char>)
  {
    CaseEq(acct.service, key)
  }

  /** The records a deletion keeps, in their original order. */
  function Kept(s: seq<Account>, key: seq<char>): seq<Account>
  {
    if s == [] then []
    else Kept(s[..|s| - 1], key) + (if Matches(s[|s| - 1], key) then [] else [s[|s| - 1]])
  }

  /** How many records match the key. */
  function CountMatches(s: seq<Account>, key: seq<char>): nat
  {
    if s == [] then 0
    else CountMatches(s[..|s| - 1], key) + (if Matches(s[|s| - 1], key) then 1 else 0)
  }

  lemma KeptPrefix(s: seq<Account>, key: seq<char>, i: nat)
    requires i < |s|
    ensures Kept(s[..i + 1], key) == Kept(s[..i], key) + (if Matches(s[i], key) then [] else [s[i]])
    ensures CountMatches(s[..i + 1], key) == CountMatches(s[..i], key) + (if Matches(s[i], key) then 1 else 0)
  {
    assert s[..i + 1][..i] == s[..i];
  }

  /** The delete loop: `write_idx` and `deleted` after compacting arr in
      place. The kept records end up, in order, at the front; the slots from
      write_idx on still hold what they held before. */
  method DeleteByService(arr: array<Account>, key: seq<char>) returns (writeIdx: nat, deleted: bool)
    modifies arr
    ensures writeIdx <= arr.Length
    ensures arr[..writeIdx] == Kept(old(arr[..]), key)
    ensures arr[writeIdx..] == old(arr[writeIdx..])
    ensures writeIdx == arr.Length - CountMatches(old(arr[..]), key)
    ensures deleted <==> exists i :: 0 <= i < arr.Length && Matches(old(arr[i]), key)
  {
    ghost var orig := arr[..];
    writeIdx := 0;
    deleted := false;
    for i := 0 to arr.Length
      invariant writeIdx + CountMatches(orig[..i], key) == i
      invariant deleted <==> writeIdx < i
      invariant arr[..writeIdx] == Kept(orig[..i], key)
      invariant forall j :: writeIdx <= j < arr.Length ==> arr[j] == orig[j]
    {
      KeptPrefix(orig, key, i);
      if Matches(arr[i], key) {
        deleted := true;
        continue;
      }
      arr[writeIdx] := arr[i];
      assert arr[..writeIdx + 1] == arr[..writeIdx] + [orig[i]];
      writeIdx := writeIdx + 1;
    }
    assert orig[..arr.Length] == orig;
    assert arr[writeIdx..] == orig[writeIdx..];
    CountMatchesPositive(orig, key);
  }

  /** Every record is either kept or counted as a match. */
  lemma {:induction false} KeptLength(s: seq<Account>, key: seq<char>)
    ensures |Kept(s, key)| + CountMatches(s, key) == |s|
  {
    if s != [] {
      KeptLength(s[..|s| - 1], key);
    }
  }

  /** A record is kept exactly when it is in the input and does not match. */
  lemma {:induction false} KeptMembers(s: seq<Account>, key: seq<char>, a: Account)
    ensures a in Kept(s, key) <==> a in s && !Matches(a, key)
  {
    if s != [] {
      var n := |s|;
      KeptMembers(s[..n - 1], key, a);
      assert s == s[..n - 1] + [s[n - 1]];
    }
  }

  /** Deletion is stable: keeping from a concatenation keeps from each part,
      so kept records stay in their original order. */
  lemma {:induction false} KeptAppend(s: seq<Account>, t: seq<Account>, key: seq<char>)
    ensures Kept(s + t, key) == Kept(s, key) + Kept(t, key)
  {
    if t != [] {
      var n := |t|;
      assert (s + t)[..|s + t| - 1] == s + t[..n - 1];
      KeptAppend(s, t[..n - 1], key);
    } else {
      assert s + t == s;
    }
  }

  /** Nothing is removed when nothing matches. */
  lemma {:induction false} KeptNoMatch(s: seq<Account>, key: seq<char>)
    requires forall i :: 0 <= i < |s| ==> !Matches(s[i], key)
    ensures Kept(s, key) == s
    ensures CountMatches(s, key) == 0
  {
    if s != [] {
      var n := |s|;
      var front := s[..n - 1];
      assert forall i :: 0 <= i < |front| ==> front[i] == s[i];
      KeptNoMatch(front, key);
      assert !Matches(s[n - 1], key);
    }
  }

  /** There is a match exactly when the count of matches is positive. */
  lemma {:induction false} CountMatchesPositive(s: seq<Account>, key: seq<char>)
    ensures CountMatches(s, key) > 0 <==> exists i :: 0 <= i < |s| && Matches(s[i], key)
  {
    if s != [] {
      var n := |s|;
      var front := s[..n - 1];
      CountMatchesPositive(front, key);
      assert forall i :: 0 <= i < n - 1 ==> front[i] == s[i];
    }
  }

  /** Deleting the same key twice removes nothing more. */
  lemma {:induction false} KeptIdempotent(s: seq<Account>, key: seq<char>)
    ensures Kept(Kept(s, key), key) == Kept(s, key)
  {
    if s != [] {
      var n := |s|;
      var last := if Matches(s[n - 1], key) then [] else [s[n - 1]];
      KeptIdempotent(s[..n - 1], key);
      KeptAppend(Kept(s[..n - 1], key), last, key);
      assert Kept(last, key) == last by {
        if last != [] {
          assert last[..0] == [];
        }
      }
    }
  }

  /** Folding twice folds no further, so a key that is already folded
      matches the same records as the key itself. */
  lemma FoldedKeyMatchesAlike(acct: Account, key: seq<char>)
    ensures Matches(acct, Lower(key)) <==> Matches(acct, key)
  {
    assert Lower(Lower(key)) == Lower(key);
  }
}
