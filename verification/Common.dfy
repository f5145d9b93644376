// Result types and finite-set facts shared by the models of the Wakezilla components.
module Common {
  datatype Option<+T> = None | Some(value: T)

  datatype Result<+T, +E> = Ok(value: T) | Err(error: E)

  /** The image of a finite set under a function. */
  ghost function Image<A, B>(f: A -> B, s: set<A>): set<B> {
    set x | x in s :: f(x)
  }

  /** A function cannot enlarge a finite set. */
  lemma {:induction false} ImageIsNoLarger<A, B>(f: A -> B, s: set<A>)
    ensures |Image(f, s)| <= |s|
    decreases s
  {
    if s != {} {
      var x :| x in s;
      ImageIsNoLarger(f, s - {x});
      assert Image(f, s) <= Image(f, s - {x}) + {f(x)};
      SubsetIsNoLarger(Image(f, s), Image(f, s - {x}) + {f(x)});
    }
  }

  /** Cardinality is monotone in the subset order. */
  lemma {:induction false} SubsetIsNoLarger<T>(a: set<T>, b: set<T>)
    requires a <= b
    ensures |a| <= |b|
    decreases a
  {
    if a != {} {
      var x :| x in a;
      SubsetIsNoLarger(a - {x}, b - {x});
    }
  }
}
