/** What a controller action hands back to the framework. */
module Results {
  import opened Entities

  datatype ActionResult =
    | RedirectToIndex                           // RedirectToAction("Index")
    | FormView(errors: seq<ModelError>)         // View(model), with the ModelState errors it shows
    | Json(success: bool, message: string)      // Json(new { success, message })
}
