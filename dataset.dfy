/** One row of the pizza sales table, restricted to the columns the filters
    and the topping vocabulary read, and the column reductions that feed the
    sidebar's defaults. */
module Dataset {

  /** An order line: `pizza_size`, `unit_price` and `pizza_ingredients`
      (the ingredient names joined by ", "). */
  datatype OrderRecord = OrderRecord(size: string, price: real, ingredients: string)

  /** The `pizza_size` column. */
  function SizeColumn(rows: seq<OrderRecord>): seq<string>
  {
    seq(|rows|, i requires 0 <= i < |rows| => rows[i].size)
  }

  /** `df['unit_price'].min()`: a price some row has, and no row has less. */
  function MinPrice(rows: seq<OrderRecord>): (r: real)
    requires |rows| > 0
    ensures forall i :: 0 <= i < |rows| ==> r <= rows[i].price
    ensures exists i :: 0 <= i < |rows| && rows[i].price == r
    decreases |rows|
  {
    if |rows| == 1 then rows[0].price
    else
      var m := MinPrice(rows[1..]);
      assert forall i :: 1 <= i < |rows| ==> rows[i] == rows[1..][i - 1];
      if rows[0].price <= m then rows[0].price else m
  }

  /** `df['unit_price'].max()`: a price some row has, and no row has more. */
  function MaxPrice(rows: seq<OrderRecord>): (r: real)
    requires |rows| > 0
    ensures forall i :: 0 <= i < |rows| ==> rows[i].price <= r
    ensures exists i :: 0 <= i < |rows| && rows[i].price == r
    decreases |rows|
  {
    if |rows| == 1 then rows[0].price
    else
      var m := MaxPrice(rows[1..]);
      assert forall i :: 1 <= i < |rows| ==> rows[i] == rows[1..][i - 1];
      if m <= rows[0].price then rows[0].price else m
  }
}
