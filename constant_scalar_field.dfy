/** A 2-D scalar field with the same value everywhere (the default "no boundary" field). */
module ConstantScalarField {
  import opened VectorMath

  datatype ConstantScalarField2 = ConstantScalarField2(value: real)
  {
    /** The sampled value does not depend on the position. */
    function Sample(x: Vector2): (r: real)
      ensures r == value
    {
      value
    }

    /** The closure handed out by `sampler()` captures the value by copy. */
    function Sampler(): (f: Vector2 -> real)
      ensures forall x: Vector2 :: f(x) == Sample(x)
    {
      var v := value;
      (_: Vector2) => v
    }
  }

  /** Builder whose value defaults to 0. */
  datatype Builder = Builder(value: real)
  {
    function WithValue(v: real): (b: Builder)
      ensures b.value == v
    {
      Builder(v)
    }

    function Build(): (f: ConstantScalarField2)
      ensures f.value == value
    {
      ConstantScalarField2(value)
    }

    function MakeShared(): (f: ConstantScalarField2)
      ensures f == Build()
    {
      ConstantScalarField2(value)
    }
  }

  function NewBuilder(): (b: Builder)
    ensures b.value == 0.0
  {
    Builder(0.0)
  }

  /** Sampling at two different points gives the same value. */
  lemma SampleIsConstant(f: ConstantScalarField2, x: Vector2, y: Vector2)
    ensures f.Sample(x) == f.Sample(y) == f.value
  {
  }

  /** `builder().withValue(v).build()` samples v at every point, and so does `makeShared()`. */
  lemma BuiltFieldSamplesValue(v: real, x: Vector2)
    ensures NewBuilder().WithValue(v).Build().Sample(x) == v
    ensures NewBuilder().WithValue(v).MakeShared().Sampler()(x) == v
  {
  }
}
