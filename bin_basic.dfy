/** `find_value`: binary search over an ascending sequence. */
module BinBasic {
  import opened Sorting

  method FindValue(nums: seq<int>, value: int) returns (found: bool)
    ensures found ==> value in nums
    ensures Sorted(nums) ==> (found <==> value in nums)
  {
    var left := 0;
    var right := |nums| - 1;
    while left <= right
      invariant 0 <= left && right < |nums| && left <= right + 1
      invariant Sorted(nums) ==> forall i :: 0 <= i < left ==> nums[i] < value
      invariant Sorted(nums) ==> forall i :: right < i < |nums| ==> nums[i] > value
      decreases right - left
    {
      var mid := (left + right) / 2;
      if nums[mid] < value {
        left := mid + 1;
      } else if nums[mid] > value {
        right := mid - 1;
      } else {
        return true;
      }
    }
    return false;
  }
}
