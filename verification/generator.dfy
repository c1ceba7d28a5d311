/** `gerarCredencial`: a username and password built from the category and four random draws.
    The draws are parameters; their ranges are those `Math.floor(Math.random() * w + b)` yields. */
module Generator {
  import opened Text

  /** The random draws: the username number, two letter indices and the password number. */
  datatype Draws = Draws(userNumber: int, letter1: int, letter2: int, passNumber: int)

  predicate ValidDraws(d: Draws) {
    && 10000 <= d.userNumber <= 99999
    && 0 <= d.letter1 < 26
    && 0 <= d.letter2 < 26
    && 100 <= d.passNumber <= 999
  }

  datatype Generated = Generated(username: string, password: string)

  /** The category with its first character upper-cased. */
  function Capitalize(tipo: string): string {
    if tipo == [] then [] else [UpperChar(tipo[0])] + tipo[1..]
  }

  /** The password prefix of each category, "tmp" for any other. */
  function PasswordPrefix(tipo: string): string {
    if tipo == "pack" then "pk"
    else if tipo == "casino" then "cs"
    else if tipo == "bet" then "bt"
    else "tmp"
  }

  /** `String.fromCharCode(97 + d)`. */
  function Letter(d: int): (c: char)
    requires 0 <= d < 26
    ensures IsLowerLetter(c)
  {
    (97 + d) as char
  }

  /** "MGL", the category with an upper-cased first character, then five digits (no leading zero). */
  predicate UsernameShape(tipo: string, u: string) {
    var n := 3 + |tipo|;
    && |u| == n + 5
    && u[..3] == "MGL"
    && (tipo != [] ==> u[3] == UpperChar(tipo[0]) && u[4..n] == tipo[1..])
    && AllDigits(u[n..]) && u[n] != '0'
  }

  /** The category's prefix, two lower-case letters, then three digits (no leading zero). */
  predicate PasswordShape(tipo: string, p: string) {
    var n := |PasswordPrefix(tipo)|;
    && |p| == n + 5
    && p[..n] == PasswordPrefix(tipo)
    && IsLowerLetter(p[n]) && IsLowerLetter(p[n + 1])
    && AllDigits(p[n + 2..]) && p[n + 2] != '0'
  }

  function GerarCredencial(tipo: string, d: Draws): (g: Generated)
    requires ValidDraws(d)
    ensures UsernameShape(tipo, g.username)
    ensures PasswordShape(tipo, g.password)
  {
    NatToStringLength(d.userNumber, 4);
    NatToStringLength(d.passNumber, 2);
    var username := "MGL" + Capitalize(tipo) + NatToString(d.userNumber);
    var password := PasswordPrefix(tipo) + [Letter(d.letter1), Letter(d.letter2)] + NatToString(d.passNumber);
    assert username[3 + |tipo|..] == NatToString(d.userNumber);
    assert password[|PasswordPrefix(tipo)| + 2..] == NatToString(d.passNumber);
    Generated(username, password)
  }

  /** The username number read back from a well-shaped username. */
  function UserNumberOf(tipo: string, u: string): nat
    requires UsernameShape(tipo, u)
  {
    ParseDecimal(u[3 + |tipo|..])
  }

  /** The letter indices and the number read back from a well-shaped password. */
  function PasswordDrawsOf(tipo: string, p: string): (int, int, nat)
    requires PasswordShape(tipo, p)
  {
    var n := |PasswordPrefix(tipo)|;
    (p[n] as int - 97, p[n + 1] as int - 97, ParseDecimal(p[n + 2..]))
  }

  /** The draws can be read back from the generated strings. */
  lemma GeneratorRoundTrip(tipo: string, d: Draws)
    requires ValidDraws(d)
    ensures UserNumberOf(tipo, GerarCredencial(tipo, d).username) == d.userNumber
    ensures PasswordDrawsOf(tipo, GerarCredencial(tipo, d).password) == (d.letter1, d.letter2, d.passNumber)
  {
    var g := GerarCredencial(tipo, d);
    var n := |PasswordPrefix(tipo)|;
    assert g.username[3 + |tipo|..] == NatToString(d.userNumber);
    assert g.password[n + 2..] == NatToString(d.passNumber);
    assert g.password[n] == Letter(d.letter1) && g.password[n + 1] == Letter(d.letter2);
    ParseNatToString(d.userNumber);
    ParseNatToString(d.passNumber);
  }

  /** Different draws for the same category give different credentials. */
  lemma GeneratorInjective(tipo: string, d1: Draws, d2: Draws)
    requires ValidDraws(d1) && ValidDraws(d2)
    requires GerarCredencial(tipo, d1) == GerarCredencial(tipo, d2)
    ensures d1 == d2
  {
    GeneratorRoundTrip(tipo, d1);
    GeneratorRoundTrip(tipo, d2);
  }
}
