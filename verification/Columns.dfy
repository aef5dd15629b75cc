/**
 * ValueSQLCol of value.hpp: a result column that is a plain vector of doubles for as long as that
 * loses nothing, and a vector of individual values from then on.
 */
module Columns {
  /** A double: a number, or not a number. Infinities need no distinction here. */
  datatype Double = NaN | Num(value: real)

  datatype SqlValue = Integer(i: int) | Float(d: Double) | Text(text: string) | Blob(block: nat) | Null

  const INT64_LIMIT := 0x8000_0000_0000_0000

  /** 2^53: every integer up to there is a double. */
  const EXACT_LIMIT := 0x20_0000_0000_0000

  predicate IsInt64(i: int) { -INT64_LIMIT <= i < INT64_LIMIT }

  /**
   * The two casts of append: toDouble rounds to the nearest double, which is the integer itself up to
   * 2^53 and an integer up to 2^63; castBack is exact where the result fits 64 bits, and anything at
   * all for 2^63.
   */
  datatype Casts = Casts(toDouble: int -> int, castBack: int -> int) {
    ghost predicate Lawful() {
      && (forall i :: IsInt64(i) ==> -INT64_LIMIT <= toDouble(i) <= INT64_LIMIT)
      && (forall i :: -EXACT_LIMIT <= i <= EXACT_LIMIT ==> toDouble(i) == i)
      && (forall d :: IsInt64(d) ==> castBack(d) == d)
    }
  }

  /** What append makes of a value, whatever the column holds already. */
  function Stored(v: SqlValue, casts: Casts, nullAsNaN: bool): SqlValue {
    match v
    case Integer(i) => if casts.castBack(casts.toDouble(i)) == i then Float(Num(casts.toDouble(i) as real)) else v
    case Null => if nullAsNaN then Float(NaN) else Null
    case _ => v
  }

  function StoredAll(s: seq<SqlValue>, casts: Casts, nullAsNaN: bool): (t: seq<SqlValue>)
    ensures |t| == |s|
  {
    seq(|s|, i requires 0 <= i < |s| => Stored(s[i], casts, nullAsNaN))
  }

  /** Only integers and NULL are ever stored as something else, and then as a double. */
  lemma StoredAsItself(v: SqlValue, casts: Casts, nullAsNaN: bool)
    requires casts.Lawful()
    ensures v.Text? || v.Blob? || v.Float? ==> Stored(v, casts, nullAsNaN) == v
    ensures v.Null? ==> Stored(v, casts, nullAsNaN) == if nullAsNaN then Float(NaN) else Null
    ensures v.Integer? && -EXACT_LIMIT <= v.i <= EXACT_LIMIT ==> Stored(v, casts, nullAsNaN) == Float(Num(v.i as real))
  {}

  /** The number a value stands for. */
  function NumberOf(v: SqlValue): real
    requires v.Integer? || (v.Float? && v.d.Num?)
  {
    if v.Integer? then v.i as real else v.d.value
  }

  /**
   * An integer is kept exactly, as a double or as itself, unless it rounds to 2^63 and the cast
   * back from there happens to return it.
   */
  lemma IntegerExact(i: int, casts: Casts, nullAsNaN: bool)
    requires IsInt64(i) && casts.Lawful()
    ensures var s := Stored(Integer(i), casts, nullAsNaN);
      && (s.Integer? || (s.Float? && s.d.Num?))
      && (NumberOf(s) == i as real <==> !(casts.toDouble(i) == INT64_LIMIT && casts.castBack(INT64_LIMIT) == i))
      && (s.Float? && NumberOf(s) == i as real <==> casts.toDouble(i) == i)
  {}

  function Floats(s: seq<Double>): (t: seq<SqlValue>)
    ensures |t| == |s|
  {
    seq(|s|, i requires 0 <= i < |s| => Float(s[i]))
  }

  class ValueSQLCol {
    const name: string
    var isAnyType: bool
    var any: seq<SqlValue>
    var floats: seq<Double>
    const casts: Casts
    ghost var appended: seq<SqlValue>  // every value appended since construction
    ghost const nullAsNaN: bool        // the flag, held constant

    ghost predicate Valid()
      reads this
    {
      && Contents() == StoredAll(appended, casts, nullAsNaN)
      && (isAnyType ==> floats == [])
      && (!isAnyType ==> any == [])
      && (isAnyType <==> exists i :: 0 <= i < |appended| && !Stored(appended[i], casts, nullAsNaN).Float?)
    }

    /** The column as operator[] shows it. */
    ghost function Contents(): seq<SqlValue>
      reads this
    {
      if isAnyType then any else Floats(floats)
    }

    constructor (name: string, casts: Casts, ghost nullAsNaN: bool)
      ensures Valid() && appended == [] && Contents() == []
      ensures this.name == name && this.casts == casts && this.nullAsNaN == nullAsNaN
    {
      this.name := name;
      this.casts := casts;
      this.nullAsNaN := nullAsNaN;
      isAnyType, any, floats := false, [], [];
      appended := [];
    }

    function Size(): (n: nat)
      reads this
      ensures n == |Contents()|
    {
      if isAnyType then |any| else |floats|
    }

    function At(index: nat): (v: SqlValue)
      requires index < Size()
      reads this
      ensures v == Contents()[index]
    {
      if isAnyType then any[index] else Float(floats[index])
    }

    /** From doubles to individual values, one by one. */
    method SwapToAnyType()
      requires !isAnyType ==> any == []
      modifies this`isAnyType, this`any, this`floats
      ensures isAnyType && any == old(Contents())
      ensures floats == if old(isAnyType) then old(floats) else []
    {
      if !isAnyType {
        for i := 0 to |floats|
          invariant !isAnyType && floats == old(floats) && any == Floats(floats)[..i]
        {
          any := any + [Float(floats[i])];
        }
        floats := [];
        isAnyType := true;
      }
    }

    method AppendDouble(d: Double)
      modifies this`any, this`floats
      ensures Contents() == old(Contents()) + [Float(d)]
      ensures isAnyType ==> floats == old(floats)
      ensures !isAnyType ==> any == old(any)
    {
      if isAnyType {
        any := any + [Float(d)];
      } else {
        floats := floats + [d];
      }
    }

    method AppendInteger(i: int)
      requires !isAnyType ==> any == []
      requires isAnyType ==> floats == []
      modifies this`isAnyType, this`any, this`floats
      ensures Contents() == old(Contents()) + [Stored(Integer(i), casts, nullAsNaN)]
      ensures isAnyType <==> old(isAnyType) || !Stored(Integer(i), casts, nullAsNaN).Float?
      ensures if isAnyType then floats == [] else any == []
    {
      var dVal := casts.toDouble(i);
      var llVal := casts.castBack(dVal);
      if llVal == i {
        AppendDouble(Num(dVal as real));
      } else {
        SwapToAnyType();
        any := any + [Integer(i)];
      }
    }

    method Append(item: SqlValue, nullAsNaN: bool)
      requires Valid() && nullAsNaN == this.nullAsNaN
      modifies this
      ensures Valid() && appended == old(appended) + [item]
    {
      match item {
        case Float(d) => AppendDouble(d);
        case Integer(i) => AppendInteger(i);
        case Null =>
          if nullAsNaN {
            AppendDouble(NaN);
          } else {
            SwapToAnyType();
            any := any + [Null];
          }
        case _ =>
          SwapToAnyType();
          any := any + [item];
      }
      Bookkeeping(item);
    }

    ghost method Bookkeeping(item: SqlValue)
      requires Contents() == StoredAll(appended, casts, nullAsNaN) + [Stored(item, casts, nullAsNaN)]
      requires if isAnyType then floats == [] else any == []
      requires isAnyType <==> (exists i :: 0 <= i < |appended| && !Stored(appended[i], casts, nullAsNaN).Float?)
                              || !Stored(item, casts, nullAsNaN).Float?
      modifies this`appended
      ensures Valid() && appended == old(appended) + [item]
    {
      ghost var before := appended;
      appended := appended + [item];
      assert appended[|before|] == item;
      forall i | 0 <= i < |before| ensures appended[i] == before[i] {
      }
    }

    /** Destroy of one row element: its memory is gone, and so is its value. */
    method Destroy(row: nat)
      modifies this`any
      ensures isAnyType && row < old(Size()) ==> any == old(any)[row := Null]
      ensures !(isAnyType && row < old(Size())) ==> any == old(any)
    {
      if isAnyType && row < |any| {
        any := any[row := Null];
      }
    }
  }

  /** A column filled with s, whatever the order of types: nothing is lost when it changes over. */
  method Fill(s: seq<SqlValue>, name: string, casts: Casts, nullAsNaN: bool) returns (column: ValueSQLCol)
    ensures fresh(column) && column.Valid() && column.appended == s
    ensures column.Contents() == StoredAll(s, casts, nullAsNaN)
  {
    column := new ValueSQLCol(name, casts, nullAsNaN);
    for i := 0 to |s|
      invariant column.Valid() && column.appended == s[..i] && column.casts == casts && column.nullAsNaN == nullAsNaN
    {
      column.Append(s[i], nullAsNaN);
      assert s[..i + 1] == s[..i] + [s[i]];
    }
    assert s[..|s|] == s;
  }
}
