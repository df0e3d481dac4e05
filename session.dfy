/**
 * The two halves together: the Python wrapper called before and after one
 * click in the frontend, for the two paths `images/1.jpg` and `images/2.jpg`.
 */
module Session {
  import opened Wrappers
  import opened Selection
  import opened Descriptors

  method TwoPathsOneClick(payload: seq<bv8> -> string)
    returns (before: Result<seq<nat>, Error>, after: Result<seq<nat>, Error>, names: seq<string>)
    ensures before == Ok([])
    ensures after == Ok([1])
    ensures names == ["1.jpg", "2.jpg"]
  {
    var one := InputFile(None, Some("images/1.jpg"), []);
    var two := InputFile(None, Some("images/2.jpg"), []);
    var files := [one, two];
    assert ResolveName(one).Ok? && ResolveName(two).Ok?;
    assert forall i :: 0 <= i < |files| ==> ResolveName(files[i]).Ok?;
    var widget := new Selector();
    before := ImageSelector(files, payload, widget.componentValue);
    widget.Click(1);
    assert widget.selected == [] + [1] == [1];
    after := ImageSelector(files, payload, widget.componentValue);
    var images := BuildDescriptors(files, payload);
    assert Basename("images/1.jpg") == "1.jpg" by {
      BasenameUnique("images/1.jpg", "1.jpg");
    }
    assert Basename("images/2.jpg") == "2.jpg" by {
      BasenameUnique("images/2.jpg", "2.jpg");
    }
    names := [images.value[0].name, images.value[1].name];
  }
}
