/** File keys and their order, in which locks are taken and files are committed. */
module Keys {
  /** The strict order of key strings, character by character. */
  predicate Below(a: string, b: string)
  {
    b != [] && (a == [] || a[0] < b[0] || (a[0] == b[0] && Below(a[1..], b[1..])))
  }

  /** A key is below another exactly if it is a proper prefix of it, or less at the first difference. */
  lemma {:induction false} BelowExactly(a: string, b: string)
    ensures Below(a, b) <==>
            a < b || exists i :: 0 <= i < |a| && i < |b| && a[..i] == b[..i] && a[i] < b[i]
  {
    if a != [] && b != [] && a[0] == b[0] {
      BelowExactly(a[1..], b[1..]);
      assert a == [a[0]] + a[1..] && b == [b[0]] + b[1..];
      if i :| 0 <= i < |a[1..]| && i < |b[1..]| && a[1..][..i] == b[1..][..i] && a[1..][i] < b[1..][i] {
        assert a[..i + 1] == [a[0]] + a[1..][..i] && b[..i + 1] == [b[0]] + b[1..][..i];
        assert a[i + 1] < b[i + 1];
      }
      if i :| 0 <= i < |a| && i < |b| && a[..i] == b[..i] && a[i] < b[i] {
        assert i > 0 && a[1..][..i - 1] == a[..i][1..] && b[1..][..i - 1] == b[..i][1..];
        assert a[1..][i - 1] < b[1..][i - 1];
      }
    } else if a != [] && b != [] {
      assert a[..0] == b[..0];
      if i :| 0 <= i < |a| && i < |b| && a[..i] == b[..i] && a[i] < b[i] {
        assert i > 0 ==> a[..i][0] == b[..i][0];
      }
    }
  }

  lemma {:induction false} BelowIsTotal(a: string, b: string)
    ensures Below(a, b) || a == b || Below(b, a)
    ensures !(Below(a, b) && Below(b, a)) && !Below(a, a)
  {
    if a != [] && b != [] {
      BelowIsTotal(a[1..], b[1..]);
      assert a == [a[0]] + a[1..] && b == [b[0]] + b[1..];
    }
    if a != [] {
      BelowIsTotal(a[1..], a[1..]);
    }
  }

  lemma {:induction false} BelowIsTransitive(a: string, b: string, c: string)
    requires Below(a, b) && Below(b, c)
    ensures Below(a, c)
  {
    if a != [] && a[0] == b[0] == c[0] {
      BelowIsTransitive(a[1..], b[1..], c[1..]);
    }
  }

  /** Strictly ascending, hence without repetition. */
  ghost predicate Ascending(keys: seq<string>)
  {
    forall i, j | 0 <= i < j < |keys| :: Below(keys[i], keys[j])
  }

  lemma AscendingIsDistinct(keys: seq<string>)
    requires Ascending(keys)
    ensures forall i, j | 0 <= i < j < |keys| :: keys[i] != keys[j]
  {
    forall i, j | 0 <= i < j < |keys|
      ensures keys[i] != keys[j]
    {
      BelowIsTotal(keys[i], keys[j]);
    }
  }

  lemma InsertIsAscending(keys: seq<string>, at: nat, key: string)
    requires Ascending(keys) && at <= |keys|
    requires forall j | 0 <= j < at :: Below(keys[j], key)
    requires forall j | at <= j < |keys| :: Below(key, keys[j])
    ensures Ascending(keys[..at] + [key] + keys[at..])
    ensures forall k :: k in keys[..at] + [key] + keys[at..] <==> k == key || k in keys
  {
    assert keys == keys[..at] + keys[at..];
  }

  /** Where a key is, or where it has to go, in an ascending list. */
  method Locate(keys: seq<string>, key: string) returns (at: nat)
    requires Ascending(keys)
    ensures at <= |keys|
    ensures forall i | 0 <= i < at :: Below(keys[i], key)
    ensures key in keys <==> at < |keys| && keys[at] == key
    ensures key !in keys ==> forall i | at <= i < |keys| :: Below(key, keys[i])
  {
    at := 0;
    while at < |keys| && Below(keys[at], key)
      invariant at <= |keys| && forall i | 0 <= i < at :: Below(keys[i], key)
    {
      at := at + 1;
    }
    forall i | 0 <= i < at
      ensures keys[i] != key
    {
      BelowIsTotal(keys[i], key);
    }
    if at < |keys| {
      BelowIsTotal(keys[at], key);
      forall i | at < i < |keys|
        ensures keys[i] != key && Below(key, keys[i])
      {
        if keys[at] != key {
          BelowIsTransitive(key, keys[at], keys[i]);
        }
        BelowIsTotal(keys[i], key);
      }
    }
  }
}
