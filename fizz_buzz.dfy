/**
 * `get_fizz_buzz`. The documentation asks for "Fizz", "Buzz" and "FizzBuzz"
 * words, but every branch of the code appends the number itself.
 * `GetFizzBuzz` follows the code; `FizzBuzzIntended` is the documented
 * behaviour, and `FizzBuzzDiffers` relates the two.
 */
module FizzBuzz {

  /** An element of the result list, typed `int | str` in the source. */
  datatype Item = Num(n: int) | Word(w: string)

  method GetFizzBuzz(n: int) returns (result: seq<Item>)
    ensures |result| == if n < 0 then 0 else n
    ensures forall i :: 0 <= i < |result| ==> result[i] == Num(i + 1)
    ensures forall i, j :: 0 <= i < j < |result| ==> result[i].n < result[j].n
  {
    result := [];
    var num := 1;
    while num < n + 1
      invariant 1 <= num
      invariant n >= 0 ==> num <= n + 1
      invariant n < 0 ==> num == 1
      invariant |result| == num - 1
      invariant forall i :: 0 <= i < |result| ==> result[i] == Num(i + 1)
    {
      if num % 15 == 0 {
        result := result + [Num(num)];
      } else if num % 5 == 0 {
        result := result + [Num(num)];
      } else if num % 3 == 0 {
        result := result + [Num(num)];
      } else {
        result := result + [Num(num)];
      }
      num := num + 1;
    }
  }

  // ---------------------------------------------------------------- as documented

  /** The word the docstring asks for in place of `num`. */
  function Spoken(num: int): (r: Item)
    ensures r == Word("FizzBuzz") <==> num % 15 == 0
    ensures r == Word("Buzz") <==> num % 5 == 0 && num % 3 != 0
    ensures r == Word("Fizz") <==> num % 3 == 0 && num % 5 != 0
    ensures r == Num(num) <==> num % 3 != 0 && num % 5 != 0
  {
    if num % 15 == 0 then Word("FizzBuzz")
    else if num % 5 == 0 then Word("Buzz")
    else if num % 3 == 0 then Word("Fizz")
    else Num(num)
  }

  /** The documented list for `1..n`. */
  function FizzBuzzIntended(n: int): (r: seq<Item>)
    ensures |r| == if n < 0 then 0 else n
    ensures forall i :: 0 <= i < |r| ==> r[i] == Spoken(i + 1)
  {
    if n <= 0 then [] else FizzBuzzIntended(n - 1) + [Spoken(n)]
  }

  /**
   * A list with the contract of `GetFizzBuzz` agrees with the documented one
   * exactly at the numbers divisible by neither 3 nor 5; the first difference
   * is at position 2, where the code gives 3 and the documentation "Fizz".
   */
  lemma FizzBuzzDiffers(n: int, asWritten: seq<Item>)
    requires |asWritten| == (if n < 0 then 0 else n)
    requires forall i :: 0 <= i < |asWritten| ==> asWritten[i] == Num(i + 1)
    ensures forall i :: 0 <= i < |asWritten| ==>
      (asWritten[i] == FizzBuzzIntended(n)[i] <==> (i + 1) % 3 != 0 && (i + 1) % 5 != 0)
    ensures n >= 3 ==> asWritten[2] == Num(3) && FizzBuzzIntended(n)[2] == Word("Fizz")
  {
    var r := FizzBuzzIntended(n);
    forall i | 0 <= i < |asWritten|
      ensures asWritten[i] == r[i] <==> (i + 1) % 3 != 0 && (i + 1) % 5 != 0
    {
      assert r[i] == Spoken(i + 1);
    }
    if n >= 3 {
      assert r[2] == Spoken(3);
    }
  }
}
