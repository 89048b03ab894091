/** Joining and concatenating pieces of text, as the printers emit them. */
module Text {

  /** The parts in order with `sep` between neighbours. */
  function Join(sep: string, parts: seq<string>): string
  {
    if |parts| == 0 then ""
    else if |parts| == 1 then parts[0]
    else Join(sep, parts[..|parts| - 1]) + sep + parts[|parts| - 1]
  }

  lemma JoinSnoc(sep: string, parts: seq<string>, last: string)
    ensures Join(sep, parts + [last]) == if parts == [] then last else Join(sep, parts) + sep + last
  {
    assert (parts + [last])[..|parts|] == parts;
  }

  lemma Assoc<T>(a: seq<T>, b: seq<T>, c: seq<T>)
    ensures (a + b) + c == a + (b + c)
  {
  }

  lemma {:induction false} JoinCons(sep: string, first: string, parts: seq<string>)
    ensures Join(sep, [first] + parts) == if parts == [] then first else first + (sep + Join(sep, parts))
  {
    if parts != [] {
      var front, last := parts[..|parts| - 1], parts[|parts| - 1];
      assert parts == front + [last];
      Assoc([first], front, [last]);
      JoinSnoc(sep, [first] + front, last);
      JoinSnoc(sep, front, last);
      JoinCons(sep, first, front);
      if front != [] {
        JoinConsStep(first, sep, Join(sep, front), last);
      } else {
        assert [first] + front == [first];
        Assoc(first, sep, last);
      }
    } else {
      assert [first] + parts == [first];
    }
  }

  lemma JoinConsStep(first: string, sep: string, middle: string, last: string)
    ensures (first + (sep + middle)) + sep + last == first + (sep + (middle + sep + last))
  {
  }

  function Concat<T>(parts: seq<seq<T>>): seq<T>
  {
    if |parts| == 0 then [] else parts[0] + Concat(parts[1..])
  }

  lemma {:induction false} ConcatSnoc<T>(parts: seq<seq<T>>, last: seq<T>)
    ensures Concat(parts + [last]) == Concat(parts) + last
  {
    if parts == [] {
      assert Concat([last]) == last + Concat<T>([]);
      assert parts + [last] == [last];
    } else {
      assert (parts + [last])[1..] == parts[1..] + [last];
      ConcatSnoc(parts[1..], last);
    }
  }

  lemma {:induction false} JoinAppend(sep: string, a: seq<string>, b: seq<string>)
    requires a != [] && b != []
    ensures Join(sep, a + b) == Join(sep, a) + sep + Join(sep, b)
  {
    var front, last := b[..|b| - 1], b[|b| - 1];
    assert a + b == (a + front) + [last] && b == front + [last];
    JoinSnoc(sep, a + front, last);
    JoinSnoc(sep, front, last);
    if front == [] {
      assert a + front == a;
    } else {
      JoinAppend(sep, a, front);
    }
  }
}
