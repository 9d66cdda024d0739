/** Complex numbers as pairs of exact reals: the part of `num_complex::Complex`
    that the escape loop of src/main.rs uses (construction, `+`, `*` and the
    modulus test). */
module ComplexNumbers {

  datatype Complex = Complex(re: real, im: real)

  const Zero: Complex := Complex(0.0, 0.0)

  function Add(a: Complex, b: Complex): Complex {
    Complex(a.re + b.re, a.im + b.im)
  }

  /** (a.re + a.im i) * (b.re + b.im i) */
  function Mul(a: Complex, b: Complex): Complex {
    Complex(a.re * b.re - a.im * b.im, a.re * b.im + a.im * b.re)
  }

  /** The squared modulus |z|^2. For exact reals, `|z| <= 2` holds exactly
      when `NormSq(z) <= 4`, so the model compares against 4 and needs no
      square root. */
  function NormSq(z: Complex): (r: real)
    ensures r >= 0.0
  {
    z.re * z.re + z.im * z.im
  }
}
