/**
 * The calendar contract: the standard day count every calendar converts through, and
 * the generic conversion between two calendars that is defined only in terms of it.
 *
 * A calendar type supplies two conversions, one into the standard day count and one out
 * of it; the blanket implementation turns them into `to_standard` and `from_standard`,
 * and `convert_to` composes the source calendar's `to_standard` with the target
 * calendar's `from_standard`. Dafny has no traits here, so a calendar type is passed
 * explicitly as the pair of its conversions. Each conversion is a partial function:
 * its precondition is the set of inputs on which it does not panic.
 */
module Calendar {
  import opened RustInt

  /** A signed count of days from the standard calendar's day 0. */
  datatype StandardCalendar = StandardCalendar(days: I128)

  /** `StandardCalendar::new`: wraps any day count, with nothing rejected. */
  function New(daysFrom: I128): (s: StandardCalendar)
    ensures s.days == daysFrom
  {
    StandardCalendar(daysFrom)
  }

  /** Every standard day count is the one `New` builds from its own count. */
  lemma NewIsOnto(s: StandardCalendar)
    ensures New(s.days) == s
  {
  }

  /** The two `From` conversions of a calendar type `T`. */
  datatype Conversions<!T> = Conversions(into: T --> StandardCalendar, from: StandardCalendar --> T)

  /** The blanket `to_standard`: exactly the type's conversion into `StandardCalendar`. */
  function ToStandard<T>(c: Conversions<T>, x: T): (s: StandardCalendar)
    requires c.into.requires(x)
    ensures s == c.into(x)
  {
    c.into(x)
  }

  /** The blanket `from_standard`: exactly the type's conversion out of `StandardCalendar`. */
  function FromStandard<T>(c: Conversions<T>, s: StandardCalendar): (x: T)
    requires c.from.requires(s)
    ensures x == c.from(s)
  {
    c.from(s)
  }

  /** `convert_to`: the target's `from_standard` applied to the source's `to_standard`. */
  function ConvertTo<S, T>(source: Conversions<S>, target: Conversions<T>, x: S): (y: T)
    requires source.into.requires(x) && target.from.requires(source.into(x))
    ensures y == target.from(source.into(x))
  {
    FromStandard(target, ToStandard(source, x))
  }

  /** Conversion sees a value only through its standard day count. */
  lemma ConvertToDependsOnlyOnStandard<S, T>(source: Conversions<S>, target: Conversions<T>, a: S, b: S)
    requires source.into.requires(a) && source.into.requires(b)
    requires target.from.requires(source.into(a))
    requires source.into(a) == source.into(b)
    ensures ConvertTo(source, target, a) == ConvertTo(source, target, b)
  {
  }

  /** A calendar whose conversions give back every value sent through the standard day count. */
  ghost predicate RoundTrips<T(!new)>(c: Conversions<T>)
  {
    forall x :: c.into.requires(x) ==> c.from.requires(c.into(x)) && c.from(c.into(x)) == x
  }

  /** A calendar that can name every standard day count it accepts, and gives it back unchanged. */
  ghost predicate NamesEveryDay<T>(c: Conversions<T>)
  {
    forall s :: c.from.requires(s) ==> c.into.requires(c.from(s)) && c.into(c.from(s)) == s
  }

  /** For a calendar whose conversions round-trip, converting a value to its own calendar is the identity. */
  lemma {:induction false} ConvertToSelfIsIdentity<T(!new)>(c: Conversions<T>, x: T)
    requires RoundTrips(c)
    requires c.into.requires(x)
    ensures c.from.requires(c.into(x))
    ensures ConvertTo(c, c, x) == x
  {
    assert c.from.requires(c.into(x)) && c.from(c.into(x)) == x;
  }

  /**
   * Converting through an intermediate calendar that keeps every standard day count is
   * the same as converting directly.
   */
  lemma {:induction false} ConvertThroughIntermediate<A, B, C>(a: Conversions<A>, b: Conversions<B>, c: Conversions<C>, x: A)
    requires NamesEveryDay(b)
    requires a.into.requires(x) && b.from.requires(a.into(x)) && c.from.requires(a.into(x))
    ensures b.into.requires(ConvertTo(a, b, x))
    ensures ConvertTo(b, c, ConvertTo(a, b, x)) == ConvertTo(a, c, x)
  {
    var s := a.into(x);
    assert b.into.requires(b.from(s)) && b.into(b.from(s)) == s;
  }
}
